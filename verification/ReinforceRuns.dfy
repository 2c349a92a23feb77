/** Any number of clients that run `Reinforce` while sessions are recorded
    (`query/reinforce.go`): listing is one step, and each listed session a transaction. */
module ReinforceRuns {
  import opened Model
  import opened WeightDynamics
  import opened Reinforcement
  import opened SessionDatabase

  /** Between two steps: idle, or inside `Reinforce` with the sessions it listed. */
  datatype Client = Idle | Working(list: seq<Session>, next: nat, cfg: ReinforceConfig)

  datatype Act =
    | List(sessions: seq<Session>, cfg: ReinforceConfig)
    | Process(eff: Effect)
    | Return
    | CreateSession(session: Session)
    | EndSession(id: ID, now: int)
    | LogEvent(ev: Event)

  /** The log holds the effects of the transactions committed so far, in order. */
  datatype State = State(tables: Tables, log: seq<Effect>, clients: seq<Client>)

  datatype Step = Step(client: nat, act: Act)

  ghost predicate Does(s: State, c: Client, act: Act, s': State, c': Client) {
    match act
    case List(sessions, cfg) =>
      c == Idle && IsListing(s.tables, sessions) && c' == Working(sessions, 0, cfg) && Unchanged(s, s')
    case Process(eff) =>
      && c.Working? && c.next < |c.list| && eff.session == c.list[c.next].id && eff.cfg == c.cfg
      && c' == c.(next := c.next + 1) && Applies(s.tables, eff, s'.tables) && s'.log == s.log + [eff]
    case Return => c' == Idle && Unchanged(s, s')
    case CreateSession(session) => c == c' == Idle && AddsSession(s.tables, session, s'.tables) && s'.log == s.log
    case EndSession(id, now) => c == c' == Idle && EndsSession(s.tables, id, now, s'.tables) && s'.log == s.log
    case LogEvent(ev) => c == c' == Idle && AddsEvent(s.tables, ev, s'.tables) && s'.log == s.log
  }

  ghost predicate Unchanged(s: State, s': State) {
    s'.tables == s.tables && s'.log == s.log
  }

  ghost predicate Next(s: State, step: Step, s': State) {
    && step.client < |s.clients| == |s'.clients|
    && s'.clients == s.clients[step.client := s'.clients[step.client]]
    && Does(s, s.clients[step.client], step.act, s', s'.clients[step.client])
  }

  ghost predicate IsRun(initial: seq<Edge>, states: seq<State>, steps: seq<Step>) {
    && |states| == |steps| + 1
    && DistinctEdges(initial)
    && states[0].tables == Tables(initial, map[], [], []) && states[0].log == []
    && (forall i :: 0 <= i < |states[0].clients| ==> states[0].clients[i] == Idle)
    && forall k :: 0 <= k < |steps| ==> Next(states[k], steps[k], states[k + 1])
  }

  lemma StepAt(initial: seq<Edge>, states: seq<State>, steps: seq<Step>, k: nat)
    requires IsRun(initial, states, steps) && k < |steps|
    ensures Next(states[k], steps[k], states[k + 1])
  {
  }

  // What every interleaving keeps.

  /** What a client has listed has ended. */
  ghost predicate ListedEnded(t: Tables, c: Client) {
    c.Working? ==> forall s :: s in c.list ==> Ended(t, s.id)
  }

  lemma StepKeepsEnded(s: State, c: Client, act: Act, s': State, c': Client, id: ID)
    requires Does(s, c, act, s', c') && Ended(s.tables, id)
    ensures Ended(s'.tables, id)
  {
    hide Justified, IsTimeline, ApplyTo;
  }

  lemma StepKeepsListed(s: State, c: Client, act: Act, s': State, c': Client, other: Client)
    requires Does(s, c, act, s', c') && ListedEnded(s.tables, c) && ListedEnded(s.tables, other)
    ensures ListedEnded(s'.tables, other) && ListedEnded(s'.tables, c')
  {
    hide Justified, IsTimeline, ApplyTo, AddsSession, EndsSession, AddsEvent, Ended;
    forall id | Ended(s.tables, id)
      ensures Ended(s'.tables, id)
    {
      StepKeepsEnded(s, c, act, s', c', id);
    }
  }

  lemma {:induction false} ReachableIsListed(initial: seq<Edge>, states: seq<State>, steps: seq<Step>, k: nat, i: nat)
    requires IsRun(initial, states, steps) && k < |states| && i < |states[k].clients|
    ensures ListedEnded(states[k].tables, states[k].clients[i])
  {
    hide Does, ListedEnded;
    if k == 0 {
      IdleListsNothing(states[0].tables);
    } else {
      StepAt(initial, states, steps, k - 1);
      var s, s', a := states[k - 1], states[k], steps[k - 1].client;
      ReachableIsListed(initial, states, steps, k - 1, i);
      ReachableIsListed(initial, states, steps, k - 1, a);
      StepKeepsListed(s, s.clients[a], steps[k - 1].act, s', s'.clients[a], s.clients[i]);
    }
  }

  lemma IdleListsNothing(t: Tables)
    ensures ListedEnded(t, Idle)
  {
  }

  lemma StepAccounts(initial: seq<Edge>, s: State, c: Client, act: Act, s': State, c': Client)
    requires Does(s, c, act, s', c') && ListedEnded(s.tables, c) && Accounts(initial, s.log, s.tables)
    ensures Accounts(initial, s'.log, s'.tables)
  {
    match act
    case Process(eff) =>
      hide Accounts, Applies;
      assert c.list[c.next] in c.list;
      OneMoreAccounted(initial, s.log, s.tables, eff, s'.tables);
    case CreateSession(session) => LaterStillAccounts(initial, s.log, s.tables, s'.tables);
    case EndSession(id, now) => LaterStillAccounts(initial, s.log, s.tables, s'.tables);
    case LogEvent(ev) => LaterStillAccounts(initial, s.log, s.tables, s'.tables);
    case List(sessions, cfg) =>
    case Return =>
  }

  /** In every state of every interleaving the edges are the replay of the committed effects,
      each justified by its session's timeline, and the marked sessions are those with one. */
  lemma {:induction false} ReachableAccounts(initial: seq<Edge>, states: seq<State>, steps: seq<Step>, k: nat)
    requires IsRun(initial, states, steps) && k < |states|
    ensures Accounts(initial, states[k].log, states[k].tables)
  {
    if k == 0 {
      NothingToAccount(initial);
    } else {
      hide Does, Accounts, ListedEnded;
      StepAt(initial, states, steps, k - 1);
      var s, s', a := states[k - 1], states[k], steps[k - 1].client;
      ReachableAccounts(initial, states, steps, k - 1);
      ReachableIsListed(initial, states, steps, k - 1, a);
      StepAccounts(initial, s, s.clients[a], steps[k - 1].act, s', s'.clients[a]);
    }
  }

  lemma NothingToAccount(initial: seq<Edge>)
    requires DistinctEdges(initial)
    ensures Accounts(initial, [], Tables(initial, map[], [], []))
  {
  }

  // How often a session is applied.

  function TimesApplied(log: seq<Effect>, id: ID): nat {
    multiset(SessionsOf(log))[id]
  }

  /** The step applies `id` although it is marked. */
  ghost predicate Reapplies(s: State, step: Step, id: ID) {
    step.act.Process? && step.act.eff.session == id && id in s.tables.processed
  }

  lemma AppliedMore(log: seq<Effect>, eff: Effect, id: ID)
    ensures TimesApplied(log + [eff], id) == TimesApplied(log, id) + if eff.session == id then 1 else 0
    ensures TimesApplied(log, id) > 0 <==> id in SessionsOf(log)
  {
    assert SessionsOf(log + [eff]) == SessionsOf(log) + [eff.session];
  }

  /** A step applies a session at most once more; a second time only if the session is marked. */
  lemma StepApplies(initial: seq<Edge>, s: State, step: Step, s': State, id: ID)
    requires Next(s, step, s') && Accounts(initial, s.log, s.tables)
    ensures TimesApplied(s.log, id) <= TimesApplied(s'.log, id)
    ensures TimesApplied(s.log, id) <= 1 ==> (TimesApplied(s'.log, id) <= 1 <==> !Reapplies(s, step, id))
  {
    hide TimesApplied, Applies, AddsSession, EndsSession, AddsEvent, IsListing, Replay, Honest;
    if step.act.Process? {
      AppliedMore(s.log, step.act.eff, id);
    }
  }

  lemma {:induction false} NeverReappliedIsOnce(initial: seq<Edge>, states: seq<State>, steps: seq<Step>, id: ID,
                                                k: nat)
    requires IsRun(initial, states, steps) && k < |states|
    requires forall j :: 0 <= j < |steps| ==> !Reapplies(states[j], steps[j], id)
    ensures TimesApplied(states[k].log, id) <= 1
  {
    hide Next, TimesApplied, Accounts;
    if k == 0 {
      NothingApplied(id);
    } else {
      NeverReappliedIsOnce(initial, states, steps, id, k - 1);
      StepAt(initial, states, steps, k - 1);
      ReachableAccounts(initial, states, steps, k - 1);
      StepApplies(initial, states[k - 1], steps[k - 1], states[k], id);
    }
  }

  lemma NothingApplied(id: ID)
    ensures TimesApplied([], id) == 0
  {
  }

  lemma {:induction false} AppliedGrows(initial: seq<Edge>, states: seq<State>, steps: seq<Step>, id: ID, j: nat,
                                        k: nat)
    requires IsRun(initial, states, steps) && j <= k < |states|
    ensures TimesApplied(states[j].log, id) <= TimesApplied(states[k].log, id)
  {
    hide Next, TimesApplied, Accounts;
    if j < k {
      AppliedGrows(initial, states, steps, id, j, k - 1);
      StepAt(initial, states, steps, k - 1);
      ReachableAccounts(initial, states, steps, k - 1);
      StepApplies(initial, states[k - 1], steps[k - 1], states[k], id);
    }
  }

  /** Over a whole run a session is applied at most once exactly when no client starts on it
      while it is marked. */
  lemma OnceExactlyWhenFresh(initial: seq<Edge>, states: seq<State>, steps: seq<Step>, id: ID)
    requires IsRun(initial, states, steps)
    ensures TimesApplied(states[|steps|].log, id) <= 1 <==>
      forall k :: 0 <= k < |steps| ==> !Reapplies(states[k], steps[k], id)
  {
    hide Next, TimesApplied, Reapplies, Accounts;
    if forall k :: 0 <= k < |steps| ==> !Reapplies(states[k], steps[k], id) {
      NeverReappliedIsOnce(initial, states, steps, id, |steps|);
    } else {
      var k :| 0 <= k < |steps| && Reapplies(states[k], steps[k], id);
      StepAt(initial, states, steps, k);
      ReachableAccounts(initial, states, steps, k);
      StepApplies(initial, states[k], steps[k], states[k + 1], id);
      AppliedGrows(initial, states, steps, id, k, |steps|);
      AppliedGrows(initial, states, steps, id, k + 1, |steps|);
    }
  }

  // One `Reinforce` at a time.

  ghost predicate OneAtATime(states: seq<State>) {
    forall k, i, j :: 0 <= k < |states| && 0 <= i < |states[k].clients| && 0 <= j < |states[k].clients| ==>
      states[k].clients[i].Working? && states[k].clients[j].Working? ==> i == j
  }

  /** What a client has still to do is not marked, and nothing is listed twice. */
  ghost predicate Pending(t: Tables, c: Client) {
    c.Working? ==>
      && (forall n :: c.next <= n < |c.list| ==> c.list[n].id !in t.processed)
      && (forall m, n :: 0 <= m < n < |c.list| ==> c.list[m].id != c.list[n].id)
  }

  lemma StepKeepsPending(s: State, c: Client, act: Act, s': State, c': Client)
    requires Does(s, c, act, s', c') && Pending(s.tables, c)
    ensures Pending(s'.tables, c')
    ensures act.Process? ==> act.eff.session !in s.tables.processed
    ensures !act.Process? ==> s'.tables.processed == s.tables.processed
  {
    hide Justified, IsTimeline, ApplyTo, Ended;
    if act.List? {
      forall n | 0 <= n < |act.sessions|
        ensures act.sessions[n].id !in s.tables.processed
      {
        assert act.sessions[n] in act.sessions;
      }
    }
  }

  lemma {:induction false} AloneIsPending(initial: seq<Edge>, states: seq<State>, steps: seq<Step>, k: nat, i: nat)
    requires IsRun(initial, states, steps) && OneAtATime(states) && k < |states| && i < |states[k].clients|
    ensures Pending(states[k].tables, states[k].clients[i])
  {
    if k > 0 {
      StepAt(initial, states, steps, k - 1);
      var s, s', a := states[k - 1], states[k], steps[k - 1].client;
      AloneIsPending(initial, states, steps, k - 1, i);
      AloneIsPending(initial, states, steps, k - 1, a);
      StepKeepsPending(s, s.clients[a], steps[k - 1].act, s', s'.clients[a]);
      hide Applies, IsListing, AddsSession, EndsSession, AddsEvent;
      assert steps[k - 1].act.Process? ==> s.clients[a].Working?;
    }
  }

  /** Calls of `Reinforce` that do not overlap apply every session at most once. */
  lemma AloneIsOnce(initial: seq<Edge>, states: seq<State>, steps: seq<Step>, id: ID)
    requires IsRun(initial, states, steps) && OneAtATime(states)
    ensures TimesApplied(states[|steps|].log, id) <= 1
  {
    hide Does, Pending, TimesApplied;
    forall k | 0 <= k < |steps|
      ensures !Reapplies(states[k], steps[k], id)
    {
      StepAt(initial, states, steps, k);
      var a := steps[k].client;
      AloneIsPending(initial, states, steps, k, a);
      StepKeepsPending(states[k], states[k].clients[a], steps[k].act, states[k + 1], states[k + 1].clients[a]);
    }
    OnceExactlyWhenFresh(initial, states, steps, id);
  }

  // Two at a time.

  /** The timeline of a session in which an entry is recalled and then shown. */
  function Shown(session: ID, entry: ID): seq<Event> {
    [Event(1, session, Recall, [], 0), Event(2, session, Show, [entry], 1)]
  }

  /** Before both clients process it, the session has been recorded and has ended. */
  function Recorded(e: Edge, session: ID): Tables {
    Tables([e], map[session := Session(session, 0, Some(2))], Shown(session, e.from), [])
  }

  function ShownEffect(e: Edge, session: ID): Effect {
    Effect(session, 2, Shown(session, e.from), map[e.id := 0.02], DEFAULT_CONFIG)
  }

  lemma ShownSelected(session: ID, entry: ID)
    ensures SelectEvents(Shown(session, entry), session) == Shown(session, entry)
  {
    var events := Shown(session, entry);
    assert events[..1] == [events[0]] && [events[0]][..0] == [];
    assert SelectEvents([events[0]], session) == [events[0]];
  }

  lemma ShownActed(session: ID, entry: ID)
    ensures ActedEvents(Shown(session, entry), 2) == [Shown(session, entry)[1]]
  {
    var events := Shown(session, entry);
    assert IsRecall(events[0]) && RecallBefore(events, 1) && IsActed(events, 1) && !IsActed(events, 0);
    assert ActedEvents(events, 0) == [] && ActedEvents(events, 1) == [];
  }

  lemma ShownMentions(ev: Event, entry: ID)
    requires ev.entryIDs == [entry]
    ensures Mentions([ev]) == [(entry, ev.eventType)]
  {
    assert [ev][..0] == [];
    assert MentionsOf(ev, 1) == [(entry, ev.eventType)];
  }

  lemma ShownTimeline(session: ID, entry: ID)
    ensures IsTimeline(Shown(session, entry), session, Shown(session, entry))
    ensures ActionsOf(Shown(session, entry)) == [(entry, Show)]
  {
    hide SelectEvents, ActedEvents, Mentions;
    ShownSelected(session, entry);
    ShownActed(session, entry);
    ShownMentions(Shown(session, entry)[1], entry);
  }

  lemma ShownJustifies(e: Edge, weight: Option<real>, session: ID)
    ensures Justified([e.(weight := weight)], ActionsOf(Shown(session, e.from)), map[e.id := 0.02], DEFAULT_CONFIG)
  {
    ShownTimeline(session, e.from);
    var actions := [(e.from, Show)];
    assert actions[..0] == [];
    assert BestOf(actions, e.from) == Some(Show);
    var edges := [e.(weight := weight)];
    assert EarnedAt(actions, DEFAULT_CONFIG, edges[0].from, 0.02);
  }

  /** The effect on the one edge, for a session marked or not. */
  lemma ShownApplies(e: Edge, weight: Option<real>, session: ID, processed: seq<ID>)
    ensures
      var now := e.(weight := weight);
      var t := Recorded(now, session).(processed := processed);
      Applies(t, ShownEffect(e, session),
              t.(edges := [TouchEdge(now, map[e.id := 0.02], DEFAULT_CONFIG)], processed := Marked(processed, session)))
  {
    hide Justified, ActionsOf, ReinforceConfig.Touch;
    ShownTimeline(session, e.from);
    ShownJustifies(e, weight, session);
    var events := Shown(session, e.from);
    assert events[..2] == events;
    assert ApplyTo([e.(weight := weight)], map[e.id := 0.02], DEFAULT_CONFIG)
        == [TouchEdge(e.(weight := weight), map[e.id := 0.02], DEFAULT_CONFIG)];
  }

  lemma OnlyListing(e: Edge, session: ID)
    ensures IsListing(Recorded(e, session), [Session(session, 0, Some(2))])
  {
    var list := [Session(session, 0, Some(2))];
    assert list[0].id == session;
  }

  /** The session is created, its two events are logged, and it ends. */
  lemma Recording(e: Edge, session: ID) returns (t1: Tables, t2: Tables, t3: Tables)
    ensures AddsSession(Tables([e], map[], [], []), Session(session, 0, None), t1)
    ensures AddsEvent(t1, Shown(session, e.from)[0], t2)
    ensures AddsEvent(t2, Shown(session, e.from)[1], t3)
    ensures EndsSession(t3, session, 2, Recorded(e, session))
  {
    var events := Shown(session, e.from);
    t1 := Tables([e], map[session := Session(session, 0, None)], [], []);
    t2 := t1.(events := [events[0]]);
    t3 := t1.(events := events);
    assert [] + [events[0]] == [events[0]] && [events[0]] + [events[1]] == events;
  }

  /** Two clients list the same session before either has processed it, and both process it:
      the shown edge, at the default weight, ends at 0.443 instead of 0.47. */
  lemma StaleListingAppliesTwice(e: Edge, session: ID) returns (states: seq<State>, steps: seq<Step>)
    requires e.weight.None?
    ensures IsRun([e], states, steps)
    ensures TimesApplied(states[|steps|].log, session) == 2
    ensures |steps| > 0 && states[|steps| - 1].tables.edges == [e.(weight := Some(0.47))]
    ensures states[|steps|].tables.edges == [e.(weight := Some(0.443))]
  {
    hide Next, Applies, IsListing, AddsSession, AddsEvent, EndsSession, Recorded, ShownEffect, TimesApplied;
    var start := Tables([e], map[], [], []);
    var t1, t2, t3 := Recording(e, session);
    var t4 := Recorded(e, session);
    var list, eff := [Session(session, 0, Some(2))], ShownEffect(e, session);
    OnlyListing(e, session);
    var t5, t6 := BothProcess(e, session);
    var w, w' := Working(list, 0, DEFAULT_CONFIG), Working(list, 1, DEFAULT_CONFIG);
    states := [State(start, [], [Idle, Idle]), State(t1, [], [Idle, Idle]), State(t2, [], [Idle, Idle]),
               State(t3, [], [Idle, Idle]), State(t4, [], [Idle, Idle]), State(t4, [], [w, Idle]),
               State(t4, [], [w, w]), State(t5, [eff], [w', w]), State(t6, [eff, eff], [w', w'])];
    var events := Shown(session, e.from);
    steps := [Step(0, CreateSession(Session(session, 0, None))), Step(0, LogEvent(events[0])),
              Step(0, LogEvent(events[1])), Step(0, EndSession(session, 2)), Step(0, List(list, DEFAULT_CONFIG)),
              Step(1, List(list, DEFAULT_CONFIG)), Step(0, Process(eff)), Step(1, Process(eff))];
    Records(start, steps[0].act, t1);
    Records(t1, steps[1].act, t2);
    Records(t2, steps[2].act, t3);
    Records(t3, steps[3].act, t4);
    BothList(t4, list);
    Processes(t4, [], [w, w], 0, eff, t5);
    Processes(t5, [eff], [w', w], 1, eff, t6);
    assert [w, w][0 := w'] == [w', w] && [w', w][1 := w'] == [w', w'];
    assert [] + [eff] == [eff] && [eff] + [eff] == [eff, eff];
    assert forall k :: 0 <= k < 8 ==> Next(states[k], steps[k], states[k + 1]);
    AppliedTwice(eff);
  }

  lemma AppliedTwice(eff: Effect)
    ensures TimesApplied([eff, eff], eff.session) == 2
  {
    AppliedMore([], eff, eff.session);
    AppliedMore([eff], eff, eff.session);
    assert [] + [eff] == [eff] && [eff] + [eff] == [eff, eff];
    NothingApplied(eff.session);
  }

  ghost predicate Writes(t: Tables, act: Act, t': Tables) {
    match act
    case CreateSession(session) => AddsSession(t, session, t')
    case EndSession(id, now) => EndsSession(t, id, now, t')
    case LogEvent(ev) => AddsEvent(t, ev, t')
    case _ => false
  }

  lemma Records(t: Tables, act: Act, t': Tables)
    requires Writes(t, act, t')
    ensures Next(State(t, [], [Idle, Idle]), Step(0, act), State(t', [], [Idle, Idle]))
  {
    hide AddsSession, EndsSession, AddsEvent;
    assert [Idle, Idle][0 := Idle] == [Idle, Idle];
  }

  lemma BothList(t: Tables, list: seq<Session>)
    requires IsListing(t, list)
    ensures var w, act := Working(list, 0, DEFAULT_CONFIG), List(list, DEFAULT_CONFIG);
      && Next(State(t, [], [Idle, Idle]), Step(0, act), State(t, [], [w, Idle]))
      && Next(State(t, [], [w, Idle]), Step(1, act), State(t, [], [w, w]))
  {
    hide IsListing;
  }

  lemma Processes(t: Tables, log: seq<Effect>, clients: seq<Client>, i: nat, eff: Effect, t': Tables)
    requires i < |clients| && clients[i].Working? && clients[i].next < |clients[i].list|
    requires eff.session == clients[i].list[clients[i].next].id && eff.cfg == clients[i].cfg
    requires Applies(t, eff, t')
    ensures Next(State(t, log, clients), Step(i, Process(eff)),
                 State(t', log + [eff], clients[i := clients[i].(next := clients[i].next + 1)]))
  {
    hide Applies;
  }

  lemma BothProcess(e: Edge, session: ID) returns (t5: Tables, t6: Tables)
    requires e.weight.None?
    ensures Applies(Recorded(e, session), ShownEffect(e, session), t5)
    ensures Applies(t5, ShownEffect(e, session), t6)
    ensures ShownEffect(e, session).session == session && ShownEffect(e, session).cfg == DEFAULT_CONFIG
    ensures t5.edges == [e.(weight := Some(0.47))] && t6.edges == [e.(weight := Some(0.443))]
  {
    hide Applies, Shown, ReinforceConfig.Touch;
    ShownTouches(e);
    ShownApplies(e, None, session, []);
    ShownApplies(e, Some(0.47), session, [session]);
    var e1, e2 := e.(weight := Some(0.47)), e.(weight := Some(0.443));
    assert e.(weight := None) == e && Recorded(e, session).(processed := []) == Recorded(e, session);
    t5 := Recorded(e1, session).(processed := [session]);
    t6 := Recorded(e2, session).(processed := [session]);
    assert t5 == Recorded(e, session).(edges := [e1], processed := Marked([], session));
    assert t6 == t5.(edges := [e2], processed := Marked([session], session));
  }

  lemma ShownTouches(e: Edge)
    requires e.weight.None?
    ensures var boosts := map[e.id := 0.02];
      && TouchEdge(e, boosts, DEFAULT_CONFIG) == e.(weight := Some(0.47))
      && TouchEdge(e.(weight := Some(0.47)), boosts, DEFAULT_CONFIG) == e.(weight := Some(0.443))
  {
  }
}
