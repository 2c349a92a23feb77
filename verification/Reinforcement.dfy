/** Reinforcement of edges from session timelines (`query/reinforce.go`), over the
    session tables and transactions of the store (`storage/sqlite`). */
module Reinforcement {
  import opened Model
  import opened WeightDynamics

  datatype Session = Session(id: ID, startedAt: int, endedAt: Option<int>)

  datatype Event = Event(id: ID, sessionID: ID, eventType: EventType, entryIDs: seq<ID>, createdAt: int)

  // Which entries a timeline acts on.

  predicate IsRecall(ev: Event) {
    ev.eventType == Recall || ev.eventType == Search
  }

  predicate RecallBefore(events: seq<Event>, n: nat)
    requires n <= |events|
  {
    exists k :: 0 <= k < n && IsRecall(events[k])
  }

  /** Event `i` acts on something after a recall. */
  predicate IsActed(events: seq<Event>, i: nat)
    requires i < |events|
  {
    IsAction(events[i].eventType) && events[i].entryIDs != [] && RecallBefore(events, i)
  }

  function ActedEvents(events: seq<Event>, n: nat): (acted: seq<Event>)
    requires n <= |events|
  {
    if n == 0 then []
    else ActedEvents(events, n - 1) + if IsActed(events, n - 1) then [events[n - 1]] else []
  }

  method FindActedEvents(events: seq<Event>) returns (result: seq<Event>)
    ensures result == ActedEvents(events, |events|)
  {
    result := [];
    var hadRecall := false;
    for i := 0 to |events|
      invariant hadRecall <==> RecallBefore(events, i)
      invariant result == ActedEvents(events, i)
    {
      var ev := events[i];
      match ev.eventType {
        case Recall | Search => hadRecall := true;
        case Show | Update | Link | Delete =>
          if hadRecall && |ev.entryIDs| > 0 {
            result := result + [ev];
          }
        case Add =>
      }
    }
  }

  function ActionStrength(action: EventType): nat {
    match action
    case Update | Link => 2
    case Show => 1
    case _ => 0
  }

  // The action that counts for each entry.

  type Mention = (ID, EventType)

  function MentionsOf(ev: Event, n: nat): seq<Mention>
    requires n <= |ev.entryIDs|
  {
    seq(n, k requires 0 <= k < n => (ev.entryIDs[k], ev.eventType))
  }

  /** Every entry the events mention, with what was done to it, in order. */
  function Mentions(acted: seq<Event>): seq<Mention> {
    if acted == [] then []
    else
      var last := acted[|acted| - 1];
      Mentions(acted[..|acted| - 1]) + MentionsOf(last, |last.entryIDs|)
  }

  /** The strongest action on `id`; the earlier one wins a tie. */
  function BestOf(mentions: seq<Mention>, id: ID): Option<EventType> {
    if mentions == [] then None
    else
      var last, before := mentions[|mentions| - 1], BestOf(mentions[..|mentions| - 1], id);
      if last.0 != id then before
      else if before.None? || ActionStrength(last.1) > ActionStrength(before.value) then Some(last.1)
      else before
  }

  /** No mention is stronger, and no earlier one is as strong. */
  lemma {:induction false} BestOfIsStrongest(mentions: seq<Mention>, id: ID)
    ensures BestOf(mentions, id).None? ==> forall m :: m in mentions ==> m.0 != id
    ensures BestOf(mentions, id).Some? ==> exists i ::
      && 0 <= i < |mentions| && mentions[i] == (id, BestOf(mentions, id).value)
      && (forall j :: 0 <= j < |mentions| && mentions[j].0 == id ==>
            ActionStrength(mentions[j].1) < ActionStrength(mentions[i].1) + if j < i then 0 else 1)
  {
    if mentions != [] {
      var n := |mentions| - 1;
      var front, last := mentions[..n], mentions[n];
      assert mentions == front + [last];
      BestOfIsStrongest(front, id);
      if last.0 == id && BestOf(mentions, id) != BestOf(front, id) {
        assert mentions[n] == (id, BestOf(mentions, id).value);
      } else if BestOf(front, id).Some? {
        var i :| 0 <= i < n && front[i] == (id, BestOf(front, id).value)
          && (forall j :: 0 <= j < n && front[j].0 == id ==>
                ActionStrength(front[j].1) < ActionStrength(front[i].1) + if j < i then 0 else 1);
        assert mentions[i] == (id, BestOf(mentions, id).value);
        assert forall j :: 0 <= j < n ==> mentions[j] == front[j];
      }
    }
  }

  ghost predicate IsBestMap(best: map<ID, EventType>, mentions: seq<Mention>) {
    forall id :: if id in best then BestOf(mentions, id) == Some(best[id]) else BestOf(mentions, id).None?
  }

  lemma BestSnoc(best: map<ID, EventType>, mentions: seq<Mention>, id: ID, action: EventType)
    requires IsBestMap(best, mentions)
    ensures IsBestMap(if id !in best || ActionStrength(action) > ActionStrength(best[id]) then best[id := action]
                      else best,
                      mentions + [(id, action)])
  {
    assert (mentions + [(id, action)])[..|mentions|] == mentions;
  }

  lemma MentionsSnoc(acted: seq<Event>, ev: Event)
    ensures Mentions(acted + [ev]) == Mentions(acted) + MentionsOf(ev, |ev.entryIDs|)
  {
    assert (acted + [ev])[..|acted|] == acted;
  }

  method BestActions(acted: seq<Event>) returns (best: map<ID, EventType>)
    ensures IsBestMap(best, Mentions(acted))
  {
    best := map[];
    assert IsBestMap(best, []);
    hide IsBestMap, BestOf, Mentions;
    ghost var done: seq<Mention> := Mentions([]);
    EmptyMentions();
    for i := 0 to |acted|
      invariant done == Mentions(acted[..i]) && IsBestMap(best, done)
    {
      var ev := acted[i];
      for j := 0 to |ev.entryIDs|
        invariant done == Mentions(acted[..i]) + MentionsOf(ev, j) && IsBestMap(best, done)
      {
        var id := ev.entryIDs[j];
        BestSnoc(best, done, id, ev.eventType);
        assert MentionsOf(ev, j + 1) == MentionsOf(ev, j) + [(id, ev.eventType)];
        done := done + [(id, ev.eventType)];
        if id !in best {
          best := best[id := ev.eventType];
          continue;
        }
        if ActionStrength(ev.eventType) > ActionStrength(best[id]) {
          best := best[id := ev.eventType];
        }
      }
      MentionsSnoc(acted[..i], ev);
      assert acted[..i] + [ev] == acted[..i + 1];
    }
    assert acted[..|acted|] == acted;
  }

  lemma EmptyMentions()
    ensures Mentions([]) == []
  {
  }

  // What that means for a timeline, in plain words.

  /** The events kept are exactly those that show, update, link or delete some entry and have a
      recall or a search before them. */
  lemma {:induction false} ActedMeans(events: seq<Event>, n: nat)
    requires n <= |events|
    ensures forall ev :: ev in ActedEvents(events, n) <==> exists j ::
      && 0 <= j < n && events[j] == ev && ev.entryIDs != []
      && ev.eventType != Recall && ev.eventType != Search && ev.eventType != Add
      && exists i :: 0 <= i < j && (events[i].eventType == Recall || events[i].eventType == Search)
  {
    if n > 0 {
      ActedMeans(events, n - 1);
      var last := events[n - 1];
      assert IsActed(events, n - 1) <==>
        && last.entryIDs != []
        && last.eventType != Recall && last.eventType != Search && last.eventType != Add
        && exists i :: 0 <= i < n - 1 && (events[i].eventType == Recall || events[i].eventType == Search);
    }
  }

  lemma {:induction false} MentionsMean(acted: seq<Event>, id: ID, action: EventType)
    ensures (id, action) in Mentions(acted) <==> exists ev :: ev in acted && ev.eventType == action && id in ev.entryIDs
  {
    if acted != [] {
      var n := |acted| - 1;
      MentionsMean(acted[..n], id, action);
      assert acted == acted[..n] + [acted[n]];
      var ms := MentionsOf(acted[n], |acted[n].entryIDs|);
      if acted[n].eventType == action && id in acted[n].entryIDs {
        var k :| 0 <= k < |acted[n].entryIDs| && acted[n].entryIDs[k] == id;
        assert ms[k] == (id, action);
      }
    }
  }

  /** What counts for an entry: an update or a link if there is one, else a show if there is one,
      else a deletion, and nothing if there is none. */
  lemma BestMeans(acted: seq<Event>, id: ID)
    requires forall ev :: ev in acted ==> ev.eventType in {Show, Update, Link, Delete}
    ensures var best := BestOf(Mentions(acted), id);
      && (best.None? <==> forall ev :: ev in acted ==> id !in ev.entryIDs)
      && (best.Some? && best.value in {Update, Link} <==>
            exists ev :: ev in acted && id in ev.entryIDs && ev.eventType in {Update, Link})
      && (best == Some(Show) <==>
            && (exists ev :: ev in acted && id in ev.entryIDs && ev.eventType == Show)
            && (forall ev :: ev in acted && id in ev.entryIDs ==> ev.eventType !in {Update, Link}))
      && (best.Some? ==>
            && best.value in {Show, Update, Link, Delete}
            && exists ev :: ev in acted && id in ev.entryIDs && ev.eventType == best.value)
  {
    hide BestOf, Mentions;
    var mentions := Mentions(acted);
    BestOfIsStrongest(mentions, id);
    forall action
      ensures (id, action) in mentions <==> exists ev :: ev in acted && ev.eventType == action && id in ev.entryIDs
    {
      MentionsMean(acted, id, action);
    }
    forall m | m in mentions && m.0 == id
      ensures m.1 in {Show, Update, Link, Delete}
    {
      assert m == (id, m.1);
    }
    var best := BestOf(mentions, id);
    if best.Some? {
      assert (id, best.value) in mentions;
      forall ev | ev in acted && id in ev.entryIDs
        ensures ActionStrength(ev.eventType) <= ActionStrength(best.value)
      {
        assert (id, ev.eventType) in mentions;
      }
    } else {
      forall ev | ev in acted
        ensures id !in ev.entryIDs
      {
        assert id in ev.entryIDs ==> (id, ev.eventType) in mentions;
      }
    }
  }

  /** After a recall or a search the session did this to the entry. */
  ghost predicate DoneAfterRecall(timeline: seq<Event>, id: ID, action: EventType) {
    exists i, j ::
      && 0 <= i < j < |timeline| && (timeline[i].eventType == Recall || timeline[i].eventType == Search)
      && timeline[j].eventType == action && id in timeline[j].entryIDs
  }

  /** What a timeline says about an entry. */
  lemma TimelineMeans(timeline: seq<Event>, id: ID)
    ensures var best := BestOf(Mentions(ActedEvents(timeline, |timeline|)), id);
      && (best.Some? && best.value in {Update, Link} <==>
            DoneAfterRecall(timeline, id, Update) || DoneAfterRecall(timeline, id, Link))
      && (best == Some(Show) <==>
            && DoneAfterRecall(timeline, id, Show)
            && !DoneAfterRecall(timeline, id, Update) && !DoneAfterRecall(timeline, id, Link))
      && (best.None? <==> forall action :: action in {Show, Update, Link, Delete} ==>
            !DoneAfterRecall(timeline, id, action))
      && (best.Some? ==> best.value in {Show, Update, Link, Delete} && DoneAfterRecall(timeline, id, best.value))
  {
    hide ActedEvents, Mentions, BestOf, DoneAfterRecall;
    var acted := ActedEvents(timeline, |timeline|);
    forall action | action in {Show, Update, Link, Delete}
      ensures DoneAfterRecall(timeline, id, action) <==>
        exists ev :: ev in acted && ev.eventType == action && id in ev.entryIDs
    {
      ActedOn(timeline, id, action);
    }
    ActedMeans(timeline, |timeline|);
    BestMeans(acted, id);
    forall ev | ev in acted && id in ev.entryIDs
      ensures DoneAfterRecall(timeline, id, ev.eventType)
    {
    }
  }

  lemma ActedOn(timeline: seq<Event>, id: ID, action: EventType)
    requires action in {Show, Update, Link, Delete}
    ensures DoneAfterRecall(timeline, id, action) <==>
      exists ev :: ev in ActedEvents(timeline, |timeline|) && ev.eventType == action && id in ev.entryIDs
  {
    hide ActedEvents;
    ActedMeans(timeline, |timeline|);
    if DoneAfterRecall(timeline, id, action) {
      var i, j :| 0 <= i < j < |timeline| && (timeline[i].eventType == Recall || timeline[i].eventType == Search) &&
        timeline[j].eventType == action && id in timeline[j].entryIDs;
      assert timeline[j] in ActedEvents(timeline, |timeline|);
    }
  }
}
