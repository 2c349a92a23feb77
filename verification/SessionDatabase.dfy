/** The database reinforcement works on: edges, the session tables of
    `storage/sqlite/session.go`, and transactions (`storage/sqlite/sqlite.go`). */
module SessionDatabase {
  import opened Model
  import opened WeightDynamics
  import opened Reinforcement
  import opened RealPower
  import Sorting

  datatype Tables = Tables(
    edges: seq<Edge>,
    sessions: map<ID, Session>,
    events: seq<Event>,
    processed: seq<ID>)

  /** What processing one session did: the timeline it read, taken from the first `upTo`
      events of the table, and the boost of each edge it touched. */
  datatype Effect = Effect(session: ID, upTo: nat, timeline: seq<Event>, boosts: map<ID, real>, cfg: ReinforceConfig)

  datatype ReinforceResult = ReinforceResult(sessionsProcessed: nat, edgesBoosted: nat)

  function TouchEdge(e: Edge, boosts: map<ID, real>, cfg: ReinforceConfig): Edge {
    if e.id in boosts then e.(weight := Some(cfg.Touch(e.EffectiveWeight(), boosts[e.id]))) else e
  }

  function ApplyTo(edges: seq<Edge>, boosts: map<ID, real>, cfg: ReinforceConfig): (r: seq<Edge>)
    ensures |r| == |edges|
  {
    seq(|edges|, i requires 0 <= i < |edges| => TouchEdge(edges[i], boosts, cfg))
  }

  /** The edges after the effects, in order. */
  function Replay(initial: seq<Edge>, log: seq<Effect>): seq<Edge> {
    if log == [] then initial
    else
      var last := log[|log| - 1];
      ApplyTo(Replay(initial, log[..|log| - 1]), last.boosts, last.cfg)
  }

  ghost predicate DistinctEdges(edges: seq<Edge>) {
    forall i, j :: 0 <= i < j < |edges| ==> edges[i].id != edges[j].id
  }

  /** The same edges, weights aside. */
  ghost predicate SameShape(s: seq<Edge>, t: seq<Edge>) {
    && |s| == |t|
    && forall i :: 0 <= i < |s| ==> s[i].id == t[i].id && s[i].from == t[i].from && s[i].to == t[i].to
  }

  lemma {:induction false} ReplayKeepsShape(initial: seq<Edge>, log: seq<Effect>)
    ensures SameShape(Replay(initial, log), initial)
  {
    if log != [] {
      ReplayKeepsShape(initial, log[..|log| - 1]);
    }
  }

  // Which edges a session touches, and by how much.

  function ActionsOf(timeline: seq<Event>): seq<Mention> {
    Mentions(ActedEvents(timeline, |timeline|))
  }

  /** `b` is what the action on one end of the edge earns. */
  ghost predicate EarnedAt(actions: seq<Mention>, cfg: ReinforceConfig, v: ID, b: real) {
    BestOf(actions, v).Some? && b == cfg.BoostForAction(BestOf(actions, v).value)
  }

  /** Exactly the edges with an end that was acted on are boosted, each by what one of
      its ends earned (either one, when both did). */
  ghost predicate Justified(edges: seq<Edge>, actions: seq<Mention>, boosts: map<ID, real>, cfg: ReinforceConfig) {
    && (forall i :: 0 <= i < |edges| ==>
          (edges[i].id in boosts <==> BestOf(actions, edges[i].from).Some? || BestOf(actions, edges[i].to).Some?))
    && BoostsEarned(edges, actions, boosts, cfg)
  }

  ghost predicate BoostsEarned(edges: seq<Edge>, actions: seq<Mention>, boosts: map<ID, real>, cfg: ReinforceConfig) {
    forall id :: id in boosts ==> exists i ::
      && 0 <= i < |edges| && edges[i].id == id
      && (EarnedAt(actions, cfg, edges[i].from, boosts[id]) || EarnedAt(actions, cfg, edges[i].to, boosts[id]))
  }

  lemma JustifiedByShape(s: seq<Edge>, t: seq<Edge>, actions: seq<Mention>, boosts: map<ID, real>, cfg: ReinforceConfig)
    requires SameShape(s, t) && Justified(s, actions, boosts, cfg)
    ensures Justified(t, actions, boosts, cfg)
  {
    forall id | id in boosts
      ensures exists i ::
        && 0 <= i < |t| && t[i].id == id
        && (EarnedAt(actions, cfg, t[i].from, boosts[id]) || EarnedAt(actions, cfg, t[i].to, boosts[id]))
    {
      var i :| 0 <= i < |s| && s[i].id == id
        && (EarnedAt(actions, cfg, s[i].from, boosts[id]) || EarnedAt(actions, cfg, s[i].to, boosts[id]));
      assert t[i].id == id;
    }
  }

  function SelectEvents(events: seq<Event>, session: ID): seq<Event> {
    if events == [] then []
    else
      SelectEvents(events[..|events| - 1], session) +
      if events[|events| - 1].sessionID == session then [events[|events| - 1]] else []
  }

  /** The action of a timeline that counts for an entry. */
  ghost predicate Counts(timeline: seq<Event>, id: ID, action: EventType) {
    && action in {Show, Update, Link, Delete} && DoneAfterRecall(timeline, id, action)
    && (DoneAfterRecall(timeline, id, Update) || DoneAfterRecall(timeline, id, Link) ==> action in {Update, Link})
    && (DoneAfterRecall(timeline, id, Show) ==> action != Delete)
  }

  /** What a session earns an edge: something exactly when an entry at one end was acted on after
      a recall, and then what is configured for the action that counts at one of the ends. */
  lemma BoostMeans(edges: seq<Edge>, timeline: seq<Event>, boosts: map<ID, real>, cfg: ReinforceConfig, i: nat)
    requires DistinctEdges(edges) && Justified(edges, ActionsOf(timeline), boosts, cfg) && i < |edges|
    ensures edges[i].id in boosts <==> exists action, id ::
      && action in {Show, Update, Link, Delete} && id in {edges[i].from, edges[i].to}
      && DoneAfterRecall(timeline, id, action)
    ensures edges[i].id in boosts ==> exists action, id ::
      && id in {edges[i].from, edges[i].to} && Counts(timeline, id, action)
      && boosts[edges[i].id] ==
         if action == Show && cfg.showBoost > 0.0 then cfg.showBoost
         else if action == Update && cfg.updateBoost > 0.0 then cfg.updateBoost
         else if action == Link && cfg.linkBoost > 0.0 then cfg.linkBoost
         else cfg.boostAmount
  {
    hide BestOf, DoneAfterRecall;
    forall id
      ensures BestOf(ActionsOf(timeline), id).Some? <==> exists action ::
        action in {Show, Update, Link, Delete} && DoneAfterRecall(timeline, id, action)
      ensures BestOf(ActionsOf(timeline), id).Some? ==> Counts(timeline, id, BestOf(ActionsOf(timeline), id).value)
    {
      BestCounts(timeline, id);
    }
  }

  lemma BestCounts(timeline: seq<Event>, id: ID)
    ensures BestOf(ActionsOf(timeline), id).Some? <==> exists action ::
      action in {Show, Update, Link, Delete} && DoneAfterRecall(timeline, id, action)
    ensures BestOf(ActionsOf(timeline), id).Some? ==> Counts(timeline, id, BestOf(ActionsOf(timeline), id).value)
  {
    TimelineMeans(timeline, id);
  }

  /** Every event of the session as often as it is there, and no other. */
  lemma {:induction false} SelectedCount(events: seq<Event>, session: ID, ev: Event)
    ensures multiset(SelectEvents(events, session))[ev] == if ev.sessionID == session then multiset(events)[ev] else 0
  {
    if events != [] {
      var n := |events| - 1;
      SelectedCount(events[..n], session, ev);
      assert events == events[..n] + [events[n]];
    }
  }

  /** `ListEvents`: the session's events in order of creation. */
  ghost predicate IsTimeline(events: seq<Event>, session: ID, timeline: seq<Event>) {
    && multiset(timeline) == multiset(SelectEvents(events, session))
    && forall i, j :: 0 <= i < j < |timeline| ==> timeline[i].createdAt <= timeline[j].createdAt
  }

  function SessionsOf(log: seq<Effect>): (ids: seq<ID>)
    ensures |ids| == |log|
  {
    seq(|log|, i requires 0 <= i < |log| => log[i].session)
  }

  function TotalBoosts(log: seq<Effect>): nat {
    if log == [] then 0 else TotalBoosts(log[..|log| - 1]) + |log[|log| - 1].boosts|
  }

  predicate Ended(t: Tables, id: ID) {
    id in t.sessions && t.sessions[id].endedAt.Some?
  }

  ghost predicate Honest(initial: seq<Edge>, t: Tables, eff: Effect) {
    && Ended(t, eff.session)
    && eff.upTo <= |t.events|
    && IsTimeline(t.events[..eff.upTo], eff.session, eff.timeline)
    && Justified(initial, ActionsOf(eff.timeline), eff.boosts, eff.cfg)
  }

  /** The tables are the outcome of the effects logged so far. */
  ghost predicate Accounts(initial: seq<Edge>, log: seq<Effect>, t: Tables) {
    && DistinctEdges(initial)
    && (forall id :: id in t.sessions ==> t.sessions[id].id == id)
    && t.edges == Replay(initial, log)
    && (forall eff :: eff in log ==> Honest(initial, t, eff))
    && Sorting.NoRepeats(t.processed)
    && (forall id :: id in t.processed <==> id in SessionsOf(log))
  }

  lemma HonestLater(initial: seq<Edge>, t: Tables, t': Tables, eff: Effect)
    requires Honest(initial, t, eff)
    requires t.events <= t'.events
    requires forall id :: Ended(t, id) ==> Ended(t', id)
    ensures Honest(initial, t', eff)
  {
    assert t'.events[..eff.upTo] == t.events[..eff.upTo];
  }

  // One touched edge at a time.

  function SetWeight(edges: seq<Edge>, id: ID, weight: real): seq<Edge> {
    seq(|edges|, i requires 0 <= i < |edges| =>
      if edges[i].id == id then edges[i].(weight := Some(weight)) else edges[i])
  }

  lemma ApplyNothing(edges: seq<Edge>, cfg: ReinforceConfig)
    ensures ApplyTo(edges, map[], cfg) == edges
  {
  }

  lemma ApplyOneMore(edges: seq<Edge>, boosts: map<ID, real>, cfg: ReinforceConfig, e: Edge, boost: real)
    requires DistinctEdges(edges) && e in edges && e.id !in boosts
    ensures SetWeight(ApplyTo(edges, boosts, cfg), e.id, cfg.Touch(e.EffectiveWeight(), boost)) ==
            ApplyTo(edges, boosts[e.id := boost], cfg)
  {
    hide ReinforceConfig.Touch;
    var i :| 0 <= i < |edges| && edges[i] == e;
    assert forall j :: 0 <= j < |edges| && edges[j].id == e.id ==> j == i;
  }

  lemma EarnedMore(edges: seq<Edge>, actions: seq<Mention>, boosts: map<ID, real>, cfg: ReinforceConfig, e: Edge,
                   v: ID, boost: real)
    requires BoostsEarned(edges, actions, boosts, cfg) && e in edges && (e.from == v || e.to == v)
    requires EarnedAt(actions, cfg, v, boost)
    ensures BoostsEarned(edges, actions, boosts[e.id := boost], cfg)
  {
    hide EarnedAt;
    var boosts' := boosts[e.id := boost];
    forall id | id in boosts'
      ensures exists i ::
        && 0 <= i < |edges| && edges[i].id == id
        && (EarnedAt(actions, cfg, edges[i].from, boosts'[id]) || EarnedAt(actions, cfg, edges[i].to, boosts'[id]))
    {
      if id == e.id {
        var i :| 0 <= i < |edges| && edges[i] == e;
      }
    }
  }

  function RowsOf(edges: seq<Edge>, v: ID): (rows: seq<Edge>)
    ensures forall e :: e in rows <==> e in edges && (e.from == v || e.to == v)
  {
    Select(edges, (e: Edge) => e.from == v) + Select(edges, (e: Edge) => e.to == v)
  }

  /** Every edge at `v` has been seen. */
  ghost predicate Visited(edges: seq<Edge>, v: ID, seen: set<ID>) {
    forall i :: 0 <= i < |edges| && (edges[i].from == v || edges[i].to == v) ==> edges[i].id in seen
  }

  /** A fetched row that was not touched yet is the row the session started with. */
  lemma FreshRows(edges: seq<Edge>, boosts: map<ID, real>, cfg: ReinforceConfig, v: ID)
    ensures forall e :: e in RowsOf(ApplyTo(edges, boosts, cfg), v) && e.id !in boosts ==> e in edges
    ensures forall e :: e in RowsOf(ApplyTo(edges, boosts, cfg), v) ==> e.from == v || e.to == v
  {
    hide ReinforceConfig.Touch;
    var now := ApplyTo(edges, boosts, cfg);
    forall e | e in RowsOf(now, v) && e.id !in boosts
      ensures e in edges
    {
      var i :| 0 <= i < |now| && now[i] == e;
      assert now[i] == TouchEdge(edges[i], boosts, cfg);
    }
  }

  lemma AllVisited(edges: seq<Edge>, boosts: map<ID, real>, cfg: ReinforceConfig, v: ID, seen: set<ID>)
    requires forall e :: e in RowsOf(ApplyTo(edges, boosts, cfg), v) ==> e.id in seen
    ensures Visited(edges, v, seen)
  {
    hide ReinforceConfig.Touch;
    var now := ApplyTo(edges, boosts, cfg);
    forall i | 0 <= i < |edges| && (edges[i].from == v || edges[i].to == v)
      ensures edges[i].id in seen
    {
      assert now[i] == TouchEdge(edges[i], boosts, cfg) && now[i] in now;
      assert now[i] in RowsOf(now, v);
    }
  }

  lemma VisitedIsJustified(edges: seq<Edge>, actions: seq<Mention>, boosts: map<ID, real>, cfg: ReinforceConfig)
    requires DistinctEdges(edges) && BoostsEarned(edges, actions, boosts, cfg)
    requires forall v :: BestOf(actions, v).Some? ==> Visited(edges, v, boosts.Keys)
    ensures Justified(edges, actions, boosts, cfg)
  {
    hide BestOf;
    forall i | 0 <= i < |edges| && edges[i].id in boosts
      ensures BestOf(actions, edges[i].from).Some? || BestOf(actions, edges[i].to).Some?
    {
      var j :| 0 <= j < |edges| && edges[j].id == edges[i].id
        && (EarnedAt(actions, cfg, edges[j].from, boosts[edges[i].id])
            || EarnedAt(actions, cfg, edges[j].to, boosts[edges[i].id]));
      assert i == j;
    }
  }

  // Single writes.

  predicate Logged(events: seq<Event>, id: ID) {
    exists i :: 0 <= i < |events| && events[i].id == id
  }

  /** The program always brings a new session without an end; the table takes any. */
  predicate AddsSession(t: Tables, session: Session, t': Tables) {
    session.id !in t.sessions && t' == t.(sessions := t.sessions[session.id := session])
  }

  predicate EndsSession(t: Tables, id: ID, now: int, t': Tables) {
    id in t.sessions && t' == t.(sessions := t.sessions[id := t.sessions[id].(endedAt := Some(now))])
  }

  predicate AddsEvent(t: Tables, ev: Event, t': Tables) {
    ev.sessionID in t.sessions && !Logged(t.events, ev.id) && t' == t.(events := t.events + [ev])
  }

  /** One session's transaction, committed: its whole effect on the edges, and its mark. */
  ghost predicate Applies(t: Tables, eff: Effect, t': Tables) {
    && eff.upTo == |t.events| && IsTimeline(t.events, eff.session, eff.timeline)
    && Justified(t.edges, ActionsOf(eff.timeline), eff.boosts, eff.cfg)
    && t' == t.(edges := ApplyTo(t.edges, eff.boosts, eff.cfg), processed := Marked(t.processed, eff.session))
  }

  /** The configured bounds fit the weight column, which only takes values between 0 and 1. */
  predicate BoundsFit(cfg: ReinforceConfig) {
    cfg.MinW() <= 1.0 && cfg.maxWeight <= 1.0
  }

  lemma TouchFits(cfg: ReinforceConfig, w: real, boost: real)
    requires BoundsFit(cfg)
    ensures 0.0 <= cfg.Touch(w, boost)
    ensures cfg.Touch(w, boost) <= 1.0
  {
  }

  lemma StillThere(edges: seq<Edge>, boosts: map<ID, real>, cfg: ReinforceConfig, e: Edge)
    requires e in edges
    ensures exists e' :: e' in ApplyTo(edges, boosts, cfg) && e'.id == e.id
  {
    var i :| 0 <= i < |edges| && edges[i] == e;
    assert ApplyTo(edges, boosts, cfg)[i] in ApplyTo(edges, boosts, cfg);
  }

  class Database {
    var tables: Tables
    /** What an open transaction rolls back to. */
    var saved: Option<Tables>
    ghost const initial: seq<Edge>
    ghost var log: seq<Effect>
    /** Storage calls that failed so far for reasons outside the tables. */
    ghost var faults: nat

    /** Holds whenever no transaction is open. */
    ghost predicate Valid()
      reads this
    {
      saved.None? && Accounts(initial, log, tables)
    }

    /** Every logged session was applied once, in the order of the processed table. */
    ghost predicate Once()
      reads this
    {
      SessionsOf(log) == tables.processed
    }

    constructor (edges: seq<Edge>)
      requires DistinctEdges(edges)
      ensures Valid() && Once() && initial == edges && log == []
      ensures tables == Tables(edges, map[], [], [])
    {
      tables := Tables(edges, map[], [], []);
      saved := None;
      initial := edges;
      log := [];
      faults := 0;
    }

    /** Any storage call may fail. */
    method Call() returns (ok: bool)
      modifies this`faults
      ensures faults == old(faults) + if ok then 0 else 1
    {
      ok := *;
      if !ok {
        faults := faults + 1;
      }
    }

    method CreateSession(session: Session) returns (r: Outcome<()>)
      requires Valid()
      modifies this`tables, this`faults
      ensures Valid() && (old(Once()) ==> Once())
      ensures r.Ok? ==> AddsSession(old(tables), session, tables)
      ensures r.Err? ==> tables == old(tables)
      ensures faults == old(faults) ==> (r.Ok? <==> session.id !in old(tables).sessions)
      ensures r.Ok? ==> faults == old(faults)
    {
      var ok := Call();
      if !ok || session.id in tables.sessions {
        return Err(StorageFailure);
      }
      tables := tables.(sessions := tables.sessions[session.id := session]);
      LaterStillAccounts(initial, log, old(tables), tables);
      return Ok(());
    }

    method EndSession(id: ID, now: int) returns (r: Outcome<()>)
      requires Valid()
      modifies this`tables, this`faults
      ensures Valid() && (old(Once()) ==> Once())
      ensures r.Ok? ==> EndsSession(old(tables), id, now, tables)
      ensures r.Err? ==> tables == old(tables)
      ensures faults == old(faults) ==> r == if id in old(tables).sessions then Ok(()) else Err(NotFound)
      ensures r != Err(StorageFailure) ==> faults == old(faults)
    {
      var ok := Call();
      if !ok {
        return Err(StorageFailure);
      }
      if id !in tables.sessions {
        return Err(NotFound);
      }
      tables := tables.(sessions := tables.sessions[id := tables.sessions[id].(endedAt := Some(now))]);
      LaterStillAccounts(initial, log, old(tables), tables);
      return Ok(());
    }

    /** The session must exist, and the event must be new; whether the session has ended does
        not matter. */
    method LogEvent(ev: Event) returns (r: Outcome<()>)
      requires Valid()
      modifies this`tables, this`faults
      ensures Valid() && (old(Once()) ==> Once())
      ensures r.Ok? ==> AddsEvent(old(tables), ev, tables)
      ensures r.Err? ==> tables == old(tables)
      ensures faults == old(faults) ==>
        (r.Ok? <==>
           ev.sessionID in old(tables).sessions && forall e :: e in old(tables).events ==> e.id != ev.id)
      ensures r.Ok? ==> faults == old(faults)
    {
      var ok := Call();
      if !ok || ev.sessionID !in tables.sessions || Logged(tables.events, ev.id) {
        return Err(StorageFailure);
      }
      tables := tables.(events := tables.events + [ev]);
      LaterStillAccounts(initial, log, old(tables), tables);
      return Ok(());
    }

    method ListEvents(id: ID) returns (r: Outcome<seq<Event>>)
      modifies this`faults
      ensures r.Ok? <==> faults == old(faults)
      ensures faults >= old(faults)
      ensures r.Ok? ==> IsTimeline(tables.events, id, r.value)
      ensures r.Ok? ==> forall ev ::
        multiset(r.value)[ev] == if ev.sessionID == id then multiset(tables.events)[ev] else 0
      ensures r.Ok? ==> forall i, j :: 0 <= i < j < |r.value| ==> r.value[i].createdAt <= r.value[j].createdAt
    {
      var ok := Call();
      if !ok {
        return Err(StorageFailure);
      }
      forall ev
        ensures multiset(SelectEvents(tables.events, id))[ev] ==
          if ev.sessionID == id then multiset(tables.events)[ev] else 0
      {
        SelectedCount(tables.events, id, ev);
      }
      var less := (a: Event, b: Event) => a.createdAt < b.createdAt;
      var timeline := Sorting.SortSlice(SelectEvents(tables.events, id), less);
      forall i, j | 0 <= i < j < |timeline|
        ensures timeline[i].createdAt <= timeline[j].createdAt
      {
        assert !less(timeline[j], timeline[i]);
      }
      return Ok(timeline);
    }

    /** The weight column only takes values between 0 and 1. */
    method UpdateWeight(id: ID, weight: real) returns (ok: bool)
      modifies this`tables, this`faults
      ensures ok ==> tables == old(tables).(edges := SetWeight(old(tables).edges, id, weight))
      ensures !ok ==> tables == old(tables)
      ensures faults >= old(faults)
      ensures ok ==> faults == old(faults)
      ensures faults == old(faults) ==>
        (ok <==> 0.0 <= weight <= 1.0 && exists e :: e in old(tables).edges && e.id == id)
    {
      ok := Call();
      if !ok || weight < 0.0 || weight > 1.0 || forall e :: e in tables.edges ==> e.id != id {
        return false;
      }
      tables := tables.(edges := SetWeight(tables.edges, id, weight));
    }

    /** Touches the rows fetched at one entry that were not seen before. */
    method TouchRows(rows: seq<Edge>, boost: real, cfg: ReinforceConfig, before: set<ID>,
                     ghost start: Tables, ghost actions: seq<Mention>, ghost given: map<ID, real>, ghost entryID: ID)
      returns (ok: bool, seen: set<ID>, boosted: nat, ghost boosts: map<ID, real>)
      requires DistinctEdges(start.edges) && tables == start.(edges := ApplyTo(start.edges, given, cfg))
      requires before == given.Keys && BoostsEarned(start.edges, actions, given, cfg)
      requires rows == RowsOf(tables.edges, entryID) && EarnedAt(actions, cfg, entryID, boost)
      modifies this`tables, this`faults
      ensures tables == start.(edges := ApplyTo(start.edges, boosts, cfg))
      ensures before <= seen == boosts.Keys && |boosts| == |given| + boosted
      ensures BoostsEarned(start.edges, actions, boosts, cfg)
      ensures ok ==> forall e :: e in rows ==> e.id in seen
      ensures faults >= old(faults) && (ok ==> faults == old(faults))
      ensures faults == old(faults) && cfg.minWeight <= 1.0 && cfg.maxWeight <= 1.0 ==> ok
    {
      hide ApplyTo, BoostsEarned, EarnedAt, DistinctEdges, ReinforceConfig.Touch, RowsOf;
      seen, boosted, boosts := before, 0, given;
      FreshRows(start.edges, given, cfg, entryID);
      for i := 0 to |rows|
        invariant tables == start.(edges := ApplyTo(start.edges, boosts, cfg))
        invariant before <= seen == boosts.Keys && |boosts| == |given| + boosted && faults == old(faults)
        invariant BoostsEarned(start.edges, actions, boosts, cfg)
        invariant forall k :: 0 <= k < i ==> rows[k].id in seen
      {
        var edge := rows[i];
        if edge.id in seen {
          continue;
        }
        assert edge in start.edges;
        var newWeight := Touched(cfg, edge, boost);
        ApplyOneMore(start.edges, boosts, cfg, edge, boost);
        EarnedMore(start.edges, actions, boosts, cfg, edge, entryID, boost);
        StillThere(start.edges, boosts, cfg, edge);
        if BoundsFit(cfg) {
          TouchFits(cfg, edge.EffectiveWeight(), boost);
        }
        ok := UpdateWeight(edge.id, newWeight);
        if !ok {
          return;
        }
        seen := seen + {edge.id};
        boosts := boosts[edge.id := boost];
        boosted := boosted + 1;
      }
      ok := true;
    }

    /** Touches every edge at an entry the session acted on, once. */
    method ProcessSession(id: ID, cfg: ReinforceConfig)
      returns (r: Outcome<nat>, ghost timeline: seq<Event>, ghost boosts: map<ID, real>)
      requires DistinctEdges(tables.edges)
      modifies this`tables, this`faults
      ensures tables.(edges := []) == old(tables).(edges := [])
      ensures r.Ok? ==>
        && IsTimeline(old(tables).events, id, timeline)
        && Justified(old(tables).edges, ActionsOf(timeline), boosts, cfg)
        && tables.edges == ApplyTo(old(tables).edges, boosts, cfg)
        && r.value == |boosts|
      ensures faults >= old(faults)
      ensures faults == old(faults) && cfg.minWeight <= 1.0 && cfg.maxWeight <= 1.0 ==> r.Ok?
      ensures r.Ok? ==> faults == old(faults)
    {
      timeline, boosts := [], map[];
      ghost var start := tables;
      hide ApplyTo, Mentions, BestOf, Justified, BoostsEarned, EarnedAt, IsTimeline, DistinctEdges,
           ReinforceConfig.Touch, RowsOf, Visited;
      var listed := ListEvents(id);
      if listed.Err? {
        return Err(listed.error), timeline, boosts;
      }
      timeline := listed.value;
      var acted := FindActedEvents(listed.value);
      ApplyNothing(tables.edges, cfg);
      NothingEarned(tables.edges, ActionsOf(timeline), cfg);
      if |acted| == 0 {
        NobodyActed(tables.edges, cfg);
        return Ok(0), timeline, boosts;
      }
      var bestAction := BestActions(acted);
      ghost var actions := ActionsOf(timeline);
      var boosted := 0;
      var seen: set<ID> := {};
      var keys := bestAction.Keys;
      while keys != {}
        invariant keys <= bestAction.Keys
        invariant tables == start.(edges := ApplyTo(start.edges, boosts, cfg))
        invariant seen == boosts.Keys && boosted == |boosts| && faults == old(faults)
        invariant BoostsEarned(start.edges, actions, boosts, cfg)
        invariant forall v :: v in bestAction.Keys - keys ==> Visited(start.edges, v, seen)
        decreases keys
      {
        var entryID :| entryID in keys;
        var boost := cfg.BoostForAction(bestAction[entryID]);
        EarnedByKey(bestAction, actions, cfg, entryID);
        var ok := Call();
        if !ok {
          return Err(StorageFailure), timeline, boosts;
        }
        var allEdges := RowsOf(tables.edges, entryID);
        ghost var fetched := boosts;
        var touched: nat;
        ok, seen, touched, boosts := TouchRows(allEdges, boost, cfg, seen, start, actions, boosts, entryID);
        if !ok {
          return Err(StorageFailure), timeline, boosts;
        }
        boosted := boosted + touched;
        AllVisited(start.edges, fetched, cfg, entryID, seen);
        StillVisited(start.edges, bestAction.Keys - keys, fetched.Keys, seen);
        keys := keys - {entryID};
      }
      EveryoneVisited(start.edges, bestAction, actions, boosts);
      VisitedIsJustified(start.edges, actions, boosts, cfg);
      return Ok(boosted), timeline, boosts;
    }

    method Touched(cfg: ReinforceConfig, edge: Edge, boost: real) returns (newWeight: real)
      ensures newWeight == cfg.Touch(edge.EffectiveWeight(), boost)
    {
      newWeight := edge.EffectiveWeight() * cfg.Decay() + boost;
      if newWeight > cfg.maxWeight {
        newWeight := cfg.maxWeight;
      }
      if newWeight < cfg.MinW() {
        newWeight := cfg.MinW();
      }
    }

    /** Opens a transaction, or joins the one already open. */
    method Begin() returns (r: Outcome<bool>)
      modifies this`saved, this`faults
      ensures r.Ok? ==> (r.value <==> old(saved).None?)
      ensures saved == if r == Ok(true) then Some(tables) else old(saved)
      ensures faults >= old(faults)
      ensures faults == old(faults) ==> r.Ok?
      ensures r.Ok? ==> faults == old(faults)
    {
      if saved.Some? {
        return Ok(false);
      }
      var ok := Call();
      if !ok {
        return Err(StorageFailure);
      }
      saved := Some(tables);
      return Ok(true);
    }

    /** Ends a transaction: its owner commits or rolls back, whoever joined does neither.
        A commit that fails leaves what a rollback leaves. */
    method Finish(owner: bool, succeeded: bool) returns (ok: bool)
      requires owner ==> saved.Some?
      modifies this`saved, this`tables, this`faults
      ensures !owner ==> ok == succeeded && saved == old(saved) && tables == old(tables)
      ensures owner ==> saved.None? && (ok ==> succeeded)
      ensures owner ==> tables == if ok then old(tables) else old(saved).value
      ensures faults >= old(faults)
      ensures faults == old(faults) ==> ok == succeeded
      ensures ok ==> faults == old(faults)
    {
      if !owner {
        return succeeded;
      }
      var committed := false;
      if succeeded {
        committed := Call();
      }
      if !committed {
        tables := saved.value;
      }
      saved := None;
      return committed;
    }

    method MarkProcessed(id: ID) returns (ok: bool)
      modifies this`tables, this`faults
      ensures tables == if ok then old(tables).(processed := Marked(old(tables).processed, id)) else old(tables)
      ensures ok <==> faults == old(faults)
      ensures faults >= old(faults)
    {
      ok := Call();
      if ok && id !in tables.processed {
        tables := tables.(processed := tables.processed + [id]);
      }
    }

    /** One session in one transaction: all of its effect together with its mark, or
        nothing at all. Nothing here checks that it was not processed before. */
    method ReinforceSession(id: ID, cfg: ReinforceConfig) returns (r: Outcome<nat>, ghost eff: Effect)
      requires Valid() && Ended(tables, id)
      modifies this
      ensures Valid()
      ensures r.Err? ==> tables == old(tables) && log == old(log)
      ensures r.Ok? ==>
        && log == old(log) + [eff]
        && eff.session == id && eff.cfg == cfg && r.value == |eff.boosts|
        && Applies(old(tables), eff, tables)
      ensures r.Ok? && old(Once()) ==> (Once() <==> id !in old(tables).processed)
      ensures faults >= old(faults)
      ensures faults == old(faults) && cfg.minWeight <= 1.0 && cfg.maxWeight <= 1.0 ==> r.Ok?
      ensures r.Ok? ==> faults == old(faults)
    {
      eff := Effect(id, 0, [], map[], cfg);
      var begun := Begin();
      if begun.Err? {
        return Err(begun.error), eff;
      }
      ReplayKeepsShape(initial, log);
      ghost var before := tables;
      var boosted, timeline, boosts := ProcessSession(id, cfg);
      var ok := boosted.Ok?;
      if ok {
        ok := MarkProcessed(id);
      }
      ok := Finish(begun.value, ok);
      if !ok {
        return Err(StorageFailure), eff;
      }
      eff := Effect(id, |before.events|, timeline, boosts, cfg);
      OneMoreAccounted(initial, log, before, eff, tables);
      log := log + [eff];
      return Ok(boosted.value), eff;
    }

    method ListUnprocessedSessions() returns (r: Outcome<seq<Session>>)
      requires forall id :: id in tables.sessions ==> tables.sessions[id].id == id
      modifies this`faults
      ensures r.Ok? <==> faults == old(faults)
      ensures faults >= old(faults)
      ensures r.Ok? ==>
        && IsListing(tables, r.value)
    {
      var ok := Call();
      if !ok {
        return Err(StorageFailure);
      }
      var rows: seq<Session> := [];
      var keys := set id | id in tables.sessions && tables.sessions[id].endedAt.Some? && id !in tables.processed;
      ghost var all := keys;
      while keys != {}
        invariant keys <= all
        invariant forall s :: s in rows <==> s.id in all - keys && s == tables.sessions[s.id]
        invariant Sorting.NoRepeats(rows)
        decreases keys
      {
        var id :| id in keys;
        rows := rows + [tables.sessions[id]];
        keys := keys - {id};
      }
      var less := (a: Session, b: Session) => a.startedAt < b.startedAt;
      var sorted := Sorting.SortSlice(rows, less);
      Sorting.SameMembers(rows, sorted);
      Sorting.PermutationKeepsNoRepeats(rows, sorted);
      forall i, j | 0 <= i < j < |sorted|
        ensures sorted[i].id != sorted[j].id && sorted[i].startedAt <= sorted[j].startedAt
      {
        assert sorted[i] in rows && sorted[j] in rows && !less(sorted[j], sorted[i]);
      }
      forall id | id in all
        ensures exists k :: 0 <= k < |sorted| && sorted[k].id == id
      {
        assert tables.sessions[id] in sorted;
      }
      return Ok(sorted);
    }

    /** `Reinforce`, on its own: processes the ended sessions that are not processed yet,
        oldest first, and stops at the first failure. */
    method Reinforce(cfg: ReinforceConfig) returns (r: Outcome<ReinforceResult>)
      requires Valid()
      modifies this
      ensures Valid() && (old(Once()) ==> Once())
      ensures tables.sessions == old(tables).sessions && tables.events == old(tables).events
      ensures old(log) <= log
      ensures Processed(old(tables), tables, cfg, log[|old(log)|..])
      ensures r.Ok? ==>
        && r.value == ReinforceResult(|log| - |old(log)|, TotalBoosts(log[|old(log)|..]))
        && forall id :: Ended(tables, id) ==> id in tables.processed
      ensures faults == old(faults) && cfg.minWeight <= 1.0 && cfg.maxWeight <= 1.0 ==> r.Ok?
      ensures r.Ok? ==> faults == old(faults)
    {
      hide ApplyTo, Replay, TotalBoosts, SessionsOf, IsListing, FollowsListing, Processed, Honest,
           DistinctEdges;
      var listed := ListUnprocessedSessions();
      if listed.Err? {
        assert log[|old(log)|..] == [];
        NothingProcessed(tables, cfg);
        return Err(listed.error);
      }
      var unprocessed := listed.value;
      var result := ReinforceResult(0, 0);
      ghost var log0, tables0 := log, tables;
      ghost var added: seq<Effect> := [];
      hide Accounts;
      NothingFollows(tables0, unprocessed, cfg);
      for i := 0 to |unprocessed|
        invariant Valid() && log == log0 + added && |added| == i
        invariant tables.sessions == tables0.sessions && tables.events == tables0.events
        invariant tables.processed == tables0.processed + SessionsOf(added)
        invariant FollowsListing(tables0, unprocessed, cfg, added, i)
        invariant result == ReinforceResult(i, TotalBoosts(added)) && faults == old(faults)
      {
        ListedAndNew(tables0, unprocessed, cfg, added, i);
        var boosted, eff := ReinforceSession(unprocessed[i].id, cfg);
        if boosted.Err? {
          SessionsConcat(log0, added);
          Followed(tables0, tables, unprocessed, cfg, added, i);
          assert log[|old(log)|..] == added;
          return Err(boosted.error);
        }
        assert log0 + added + [eff] == log0 + (added + [eff]);
        FollowOn(tables0, unprocessed, cfg, added, i, eff);
        added := added + [eff];
        result := ReinforceResult(result.sessionsProcessed + 1, result.edgesBoosted + boosted.value);
      }
      SessionsConcat(log0, added);
      Followed(tables0, tables, unprocessed, cfg, added, |unprocessed|);
      assert log[|old(log)|..] == added;
      return Ok(result);
    }
  }

  /** The ended, unprocessed sessions, each once, oldest first. */
  ghost predicate IsListing(t: Tables, list: seq<Session>) {
    && (forall s :: s in list ==> Ended(t, s.id) && s.id !in t.processed && s == t.sessions[s.id])
    && (forall id :: Ended(t, id) && id !in t.processed ==> exists k :: 0 <= k < |list| && list[k].id == id)
    && (forall i, j :: 0 <= i < j < |list| ==> list[i].id != list[j].id)
    && (forall i, j :: 0 <= i < j < |list| ==> list[i].startedAt <= list[j].startedAt)
  }

  /** The new effects are those of the first `n` sessions listed. */
  ghost predicate FollowsListing(t: Tables, list: seq<Session>, cfg: ReinforceConfig, added: seq<Effect>, n: nat) {
    && IsListing(t, list) && |added| == n <= |list|
    && forall k :: 0 <= k < n ==> added[k].session == list[k].id && added[k].cfg == cfg
  }

  lemma NothingFollows(t: Tables, list: seq<Session>, cfg: ReinforceConfig)
    requires IsListing(t, list)
    ensures FollowsListing(t, list, cfg, [], 0) && TotalBoosts([]) == 0 && t.processed + SessionsOf([]) == t.processed
  {
  }

  lemma SessionsConcat(log: seq<Effect>, added: seq<Effect>)
    ensures SessionsOf(log + added) == SessionsOf(log) + SessionsOf(added)
  {
  }

  lemma ListedAndNew(t: Tables, list: seq<Session>, cfg: ReinforceConfig, added: seq<Effect>, n: nat)
    requires FollowsListing(t, list, cfg, added, n) && n < |list|
    ensures Ended(t, list[n].id) && list[n].id !in t.processed + SessionsOf(added)
  {
    assert list[n] in list;
  }

  lemma FollowOn(t: Tables, list: seq<Session>, cfg: ReinforceConfig, added: seq<Effect>, n: nat, eff: Effect)
    requires FollowsListing(t, list, cfg, added, n) && n < |list| && eff.session == list[n].id && eff.cfg == cfg
    ensures FollowsListing(t, list, cfg, added + [eff], n + 1)
    ensures t.processed + SessionsOf(added) + [eff.session] == t.processed + SessionsOf(added + [eff])
    ensures TotalBoosts(added + [eff]) == TotalBoosts(added) + |eff.boosts|
  {
    assert (added + [eff])[..|added|] == added;
  }

  /** The processed table grew by the sessions of the new effects, in their order, oldest
      session first. */
  ghost predicate Processed(t: Tables, t': Tables, cfg: ReinforceConfig, added: seq<Effect>) {
    && t'.processed == t.processed + SessionsOf(added)
    && (forall i :: 0 <= i < |added| ==> added[i].cfg == cfg && Ended(t, added[i].session))
    && (forall i, j :: 0 <= i < j < |added| ==>
          t.sessions[added[i].session].startedAt <= t.sessions[added[j].session].startedAt)
  }

  lemma NothingProcessed(t: Tables, cfg: ReinforceConfig)
    ensures Processed(t, t, cfg, [])
  {
    assert t.processed + SessionsOf([]) == t.processed;
  }

  lemma Followed(t: Tables, t': Tables, list: seq<Session>, cfg: ReinforceConfig, added: seq<Effect>, n: nat)
    requires FollowsListing(t, list, cfg, added, n) && t'.processed == t.processed + SessionsOf(added)
    ensures Processed(t, t', cfg, added)
    ensures n == |list| ==> forall id :: Ended(t, id) ==> id in t'.processed
  {
    assert forall i :: 0 <= i < n ==> list[i] in list;
    if n == |list| {
      forall id | Ended(t, id) && id !in t.processed
        ensures id in SessionsOf(added)
      {
        var k :| 0 <= k < |list| && list[k].id == id;
        assert SessionsOf(added)[k] == list[k].id;
      }
    }
  }

  function Marked(processed: seq<ID>, id: ID): seq<ID> {
    if id in processed then processed else processed + [id]
  }

  lemma OneMoreAccounted(initial: seq<Edge>, log: seq<Effect>, t: Tables, eff: Effect, t': Tables)
    requires Accounts(initial, log, t) && Ended(t, eff.session) && Applies(t, eff, t')
    ensures Accounts(initial, log + [eff], t')
    ensures SessionsOf(log + [eff]) == SessionsOf(log) + [eff.session]
  {
    hide Justified, IsTimeline, ApplyTo, ActionsOf;
    var log' := log + [eff];
    assert log'[..|log|] == log;
    ReplayKeepsShape(initial, log);
    JustifiedByShape(t.edges, initial, ActionsOf(eff.timeline), eff.boosts, eff.cfg);
    assert t.events[..eff.upTo] == t.events;
    assert SessionsOf(log') == SessionsOf(log) + [eff.session];
    forall e | e in log'
      ensures Honest(initial, t', e)
    {
      if e in log {
        HonestLater(initial, t, t', e);
      }
    }
  }

  lemma NothingEarned(edges: seq<Edge>, actions: seq<Mention>, cfg: ReinforceConfig)
    ensures BoostsEarned(edges, actions, map[], cfg)
  {
  }

  lemma NobodyActed(edges: seq<Edge>, cfg: ReinforceConfig)
    ensures Justified(edges, Mentions([]), map[], cfg)
  {
  }

  lemma EarnedByKey(best: map<ID, EventType>, actions: seq<Mention>, cfg: ReinforceConfig, v: ID)
    requires IsBestMap(best, actions) && v in best
    ensures EarnedAt(actions, cfg, v, cfg.BoostForAction(best[v]))
  {
  }

  lemma StillVisited(edges: seq<Edge>, nodes: set<ID>, seen: set<ID>, seen': set<ID>)
    requires seen <= seen' && forall v :: v in nodes ==> Visited(edges, v, seen)
    ensures forall v :: v in nodes ==> Visited(edges, v, seen')
  {
  }

  lemma EveryoneVisited(edges: seq<Edge>, best: map<ID, EventType>, actions: seq<Mention>, boosts: map<ID, real>)
    requires IsBestMap(best, actions) && forall v :: v in best ==> Visited(edges, v, boosts.Keys)
    ensures forall v :: BestOf(actions, v).Some? ==> Visited(edges, v, boosts.Keys)
  {
  }

  lemma LaterStillAccounts(initial: seq<Edge>, log: seq<Effect>, t: Tables, t': Tables)
    requires Accounts(initial, log, t)
    requires t'.edges == t.edges && t'.processed == t.processed && t.events <= t'.events
    requires forall id :: Ended(t, id) ==> Ended(t', id)
    requires forall id :: id in t'.sessions ==> t'.sessions[id].id == id
    ensures Accounts(initial, log, t')
  {
    forall eff | eff in log
      ensures Honest(initial, t', eff)
    {
      HonestLater(initial, t, t', eff);
    }
  }

  // What the log says about the weights.

  /** An edge's weight after the log: the fold of one touch per effect that boosts it. */
  function WeightAfter(e: Edge, log: seq<Effect>): real {
    if log == [] then e.EffectiveWeight()
    else
      var last, w := log[|log| - 1], WeightAfter(e, log[..|log| - 1]);
      if e.id in last.boosts then last.cfg.Touch(w, last.boosts[e.id]) else w
  }

  lemma {:induction false} ReplayIsFold(initial: seq<Edge>, log: seq<Effect>, i: nat)
    requires i < |initial|
    ensures |Replay(initial, log)| == |initial| && Replay(initial, log)[i].id == initial[i].id
    ensures Replay(initial, log)[i].EffectiveWeight() == WeightAfter(initial[i], log)
  {
    hide ReinforceConfig.Touch;
    if log != [] {
      ReplayIsFold(initial, log[..|log| - 1], i);
    }
  }

  /** The boosts an edge got, in order. */
  function BoostsOn(id: ID, log: seq<Effect>): seq<real> {
    if log == [] then []
    else
      var last := log[|log| - 1];
      BoostsOn(id, log[..|log| - 1]) + if id in last.boosts then [last.boosts[id]] else []
  }

  lemma {:induction false} TouchManySnoc(cfg: ReinforceConfig, w: real, boosts: seq<real>, b: real)
    ensures cfg.TouchMany(w, boosts + [b]) == cfg.Touch(cfg.TouchMany(w, boosts), b)
    decreases |boosts|
  {
    hide ReinforceConfig.Touch;
    if boosts == [] {
      assert [b][1..] == [];
      assert cfg.TouchMany(cfg.Touch(w, b), []) == cfg.Touch(w, b);
    } else {
      assert (boosts + [b])[1..] == boosts[1..] + [b];
      TouchManySnoc(cfg, cfg.Touch(w, boosts[0]), boosts[1..], b);
    }
  }

  lemma {:induction false} FoldIsTouchMany(e: Edge, log: seq<Effect>, cfg: ReinforceConfig)
    requires forall eff :: eff in log ==> eff.cfg == cfg
    ensures WeightAfter(e, log) == cfg.TouchMany(e.EffectiveWeight(), BoostsOn(e.id, log))
  {
    hide ReinforceConfig.Touch;
    if log != [] {
      var front, last := log[..|log| - 1], log[|log| - 1];
      assert log == front + [last];
      FoldIsTouchMany(e, front, cfg);
      if e.id in last.boosts {
        TouchManySnoc(cfg, e.EffectiveWeight(), BoostsOn(e.id, front), last.boosts[e.id]);
      } else {
        assert BoostsOn(e.id, log) == BoostsOn(e.id, front);
      }
    }
  }

  lemma DefaultEarnings(edges: seq<Edge>, actions: seq<Mention>, boosts: map<ID, real>, id: ID)
    requires Justified(edges, actions, boosts, DEFAULT_CONFIG) && id in boosts
    ensures boosts[id] in {0.0, 0.02, 0.05}
  {
  }

  lemma {:induction false} DefaultBoostsOn(initial: seq<Edge>, log: seq<Effect>, t: Tables, id: ID)
    requires forall eff :: eff in log ==> Honest(initial, t, eff) && eff.cfg == DEFAULT_CONFIG
    ensures DefaultBoosts(BoostsOn(id, log))
  {
    if log != [] {
      var front, last := log[..|log| - 1], log[|log| - 1];
      assert log == front + [last];
      DefaultBoostsOn(initial, front, t, id);
      if id in last.boosts {
        assert last in log;
        DefaultEarnings(initial, ActionsOf(last.timeline), last.boosts, id);
      }
    }
  }

  /** After any run under the default configuration an edge that started between 0 and 1
      has at most 0.9 per touch left of what it had above one half, and once touched it
      stays within [0.01, 0.95]. */
  lemma EveryRunSettles(initial: seq<Edge>, log: seq<Effect>, t: Tables, i: nat)
    requires Accounts(initial, log, t) && i < |initial|
    requires forall eff :: eff in log ==> eff.cfg == DEFAULT_CONFIG
    requires 0.0 <= initial[i].EffectiveWeight() <= 1.0
    ensures |t.edges| == |initial|
    ensures var w0, w, n := initial[i].EffectiveWeight(), t.edges[i].EffectiveWeight(), |BoostsOn(initial[i].id, log)|;
      && w - 0.5 <= Pow(0.9, n) * (w0 - 0.5)
      && (n > 0 ==> 0.01 <= w <= 0.95)
      && (n == 0 ==> w == w0)
  {
    hide Replay, WeightAfter, ReinforceConfig.TouchMany, Pow, Honest, BoostsOn, DefaultBoosts;
    var e := initial[i];
    ReplayIsFold(initial, log, i);
    FoldIsTouchMany(e, log, DEFAULT_CONFIG);
    DefaultBoostsOn(initial, log, t, e.id);
    NoTouches(e.EffectiveWeight());
    HalfIsABarrier(e.EffectiveWeight(), BoostsOn(e.id, log));
  }
}
