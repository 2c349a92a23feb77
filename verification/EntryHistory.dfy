/** Any interleaving of any number of clients over the tables of the entry store, statement by
    statement. `EnsureHierarchy` and `Update` run outside transactions, so that each of their
    statements is a step of its own; the other operations are one statement or one transaction. */
module EntryHistory {
  import opened Model
  import opened EntryStore
  import opened Hierarchy
  import opened Sorting
  import ScopePath

  /** What an update brings; the entry as the operation prepares it. */
  datatype Write = Write(entry: Entry, labels: seq<string>)

  /** Where a client is in the operation it has called. */
  datatype Client =
    | Idle
    | Ensuring(path: string, next: nat, write: Option<Write>)
    | Labelling(id: ID, labels: seq<string>, done: nat)

  datatype Act =
    | Begin(path: string, write: Option<Write>)
    | InsertScope
    | WriteRow
    | SaveLabel
    | Return
    | Create(entry: Entry, labels: seq<string>)
    | CreateOrUpdate(entry: Entry, labels: seq<string>)
    | FailedSave(path: string)
    | Delete(id: ID)
    | DeleteExpired(now: int)
    | DeleteEmpty
    | DeleteScope(scope: string)

  datatype State = State(tables: Tables, clients: seq<Client>)

  datatype Event = Event(client: nat, act: Act)

  /** One statement or transaction of a client, or a call that begins or returns. Statements
      that fail or match nothing change nothing; the call then returns. In a transaction that
      its caller opened, a failed call may leave scopes or a row with some of its labels. */
  ghost predicate Does(t: Tables, c: Client, act: Act, t': Tables, c': Client) {
    match act
    case Begin(path, write) =>
      && c == Idle && t' == t && c' == Ensuring(path, 0, write)
      && (write.Some? ==> write.value.entry.scope == path)
    case InsertScope =>
      && c.Ensuring? && c.next < |ScopePath.Split(c.path)|
      && t' == t.(scopes := t.scopes + {Ancestor(c.path, c.next)}) && c' == c.(next := c.next + 1)
    case WriteRow =>
      && c.Ensuring? && c.next == |ScopePath.Split(c.path)| && c.write.Some?
      && c' == Labelling(c.write.value.entry.id, c.write.value.labels, 0)
      && WritesRow(t, c.write.value.entry, t')
    case SaveLabel =>
      && c.Labelling? && c.done <= |c.labels| && c' == c.(done := c.done + 1)
      && (if c.done == 0 then t' == t.(labels := Unlabelled(t.labels, {c.id}))
          else InsertsLabel(t, c.id, c.labels[c.done - 1], t'))
    case Return => t' == t && c' == Idle
    case Create(entry, labels) => c == c' == Idle && CreatesRow(t, entry, labels, t')
    case CreateOrUpdate(entry, labels) => c == c' == Idle && SavesRow(t, entry, labels, t')
    case FailedSave(path) => c == c' == Idle && Fails(t, path, t')
    case Delete(id) => c == c' == Idle && id in t.entries && Removes(t, {id}, t')
    case DeleteExpired(now) => c == c' == Idle && Removes(t, ExpiredIds(t.entries, now), t')
    case DeleteEmpty => c == c' == Idle && Sweeps(t, t')
    case DeleteScope(scope) =>
      c == c' == Idle && scope in t.scopes && scope !in ScopesUsed(t.entries) && t' == t.(scopes := t.scopes - {scope})
  }

  /** The `UPDATE` of a row: the version still stands, the content is free, and the foreign key
      finds the scope. */
  ghost predicate WritesRow(t: Tables, entry: Entry, t': Tables) {
    && MayUpdate(t.entries, entry) && entry.scope in t.scopes
    && t' == t.(entries := t.entries[entry.id := entry.(version := entry.version + 1)])
  }

  /** The keys of the label table: the pair is new, and the entry is there. */
  ghost predicate InsertsLabel(t: Tables, id: ID, given: string, t': Tables) {
    (id, given) !in t.labels && id in t.entries && t' == t.(labels := t.labels + {(id, given)})
  }

  ghost predicate Next(s: State, event: Event, s': State) {
    && event.client < |s.clients| == |s'.clients|
    && s'.clients == s.clients[event.client := s'.clients[event.client]]
    && Does(s.tables, s.clients[event.client], event.act, s'.tables, s'.clients[event.client])
  }

  ghost predicate IsSegment(states: seq<State>, events: seq<Event>) {
    && |states| == |events| + 1
    && forall k :: 0 <= k < |events| ==> Next(states[k], events[k], states[k + 1])
  }

  ghost predicate IsRun(states: seq<State>, events: seq<Event>) {
    && IsSegment(states, events)
    && states[0].tables == Tables({}, map[], {})
    && forall i :: 0 <= i < |states[0].clients| ==> states[0].clients[i] == Idle
  }

  // What every interleaving keeps.

  /** An insertion finds its scope or the one above it; a deleted scope has nothing below it. */
  ghost predicate Careful(t: Tables, c: Client, act: Act) {
    match act
    case InsertScope =>
      c.Ensuring? && c.next < |ScopePath.Split(c.path)| ==> Guarded(t.scopes, c.path, c.next)
    case DeleteScope(scope) => forall s :: s in t.scopes ==> !ScopePath.IsAncestorOf(scope, s)
    case _ => true
  }

  lemma StepKeepsSound(t: Tables, c: Client, act: Act, t': Tables, c': Client)
    requires Sound(t) && Does(t, c, act, t', c')
    ensures Sound(t')
    ensures Closed(t.scopes) ==> (Closed(t'.scopes) <==> Careful(t, c, act))
  {
    hide Closed, Guarded, Chain, CreatesRow, OverwritesRow, Fails, Removes, Sweeps, ExpiredIds, ScopePath.IsAncestorOf;
    match act
    case InsertScope =>
      if Closed(t.scopes) {
        InsertingKeepsClosed(t.scopes, c.path, c.next);
      }
    case Create(entry, labels) => CreateKeeps(t, entry, labels, t');
    case CreateOrUpdate(entry, labels) =>
      if Taken(t.entries, entry.contentHash, entry.scope) {
        var id :| OverwritesRow(t, id, entry, labels, t');
        OverwriteKeeps(t, id, entry, labels, t');
      } else {
        CreateKeeps(t, entry, labels, t');
      }
    case FailedSave(path) => FailureKeeps(t, path, t');
    case Delete(id) => RemoveKeeps(t, {id}, t');
    case DeleteExpired(now) => RemoveKeeps(t, ExpiredIds(t.entries, now), t');
    case DeleteEmpty => SweepKeeps(t, t');
    case DeleteScope(scope) =>
      if Closed(t.scopes) {
        DeletingKeepsClosed(t.scopes, scope);
      }
    case Begin(path, write) =>
    case WriteRow =>
    case SaveLabel =>
    case Return =>
  }

  lemma StepAt(states: seq<State>, events: seq<Event>, k: nat)
    requires IsSegment(states, events) && k < |events|
    ensures Next(states[k], events[k], states[k + 1])
  {
  }

  /** In every state of every interleaving there is at most one row per content hash and scope,
      every entry's scope is there, and so is every label's entry. */
  lemma {:induction false} ReachableIsSound(states: seq<State>, events: seq<Event>, k: nat)
    requires IsRun(states, events) && k < |states|
    ensures Sound(states[k].tables)
  {
    if k > 0 {
      ReachableIsSound(states, events, k - 1);
      StepAt(states, events, k - 1);
      hide Sound, Does, Closed, Careful;
      var i := events[k - 1].client;
      StepKeepsSound(states[k - 1].tables, states[k - 1].clients[i], events[k - 1].act,
                     states[k].tables, states[k].clients[i]);
    }
  }

  // The hierarchy of scopes.

  ghost predicate CarefulAt(s: State, event: Event) {
    event.client < |s.clients| ==> Careful(s.tables, s.clients[event.client], event.act)
  }

  lemma {:induction false} CarefulIsClosed(states: seq<State>, events: seq<Event>, k: nat)
    requires IsRun(states, events) && k < |states|
    requires forall j :: 0 <= j < |events| ==> CarefulAt(states[j], events[j])
    ensures Closed(states[k].tables.scopes)
  {
    if k > 0 {
      CarefulIsClosed(states, events, k - 1);
      ReachableIsSound(states, events, k - 1);
      StepAt(states, events, k - 1);
      hide Sound, Does, Closed, Careful;
      StepClosed(states[k - 1], events[k - 1], states[k]);
    }
  }

  lemma StepClosed(s: State, event: Event, s': State)
    requires Next(s, event, s') && Sound(s.tables) && Closed(s.tables.scopes)
    ensures Closed(s'.tables.scopes) <==> CarefulAt(s, event)
  {
    hide Sound, Closed, Careful;
    StepKeepsSound(s.tables, s.clients[event.client], event.act, s'.tables, s'.clients[event.client]);
  }

  /** The scopes stay closed under parents throughout exactly when, at the moment it is made,
      every insertion finds its scope or the one above it, and every deletion of a scope finds
      nothing below it. */
  lemma ClosedExactlyWhenCareful(states: seq<State>, events: seq<Event>)
    requires IsRun(states, events)
    ensures (forall k :: 0 <= k < |states| ==> Closed(states[k].tables.scopes))
       <==> (forall k :: 0 <= k < |events| ==> CarefulAt(states[k], events[k]))
  {
    hide Sound, Does, Closed, CarefulAt;
    if forall k :: 0 <= k < |events| ==> CarefulAt(states[k], events[k]) {
      forall k | 0 <= k < |states|
        ensures Closed(states[k].tables.scopes)
      {
        CarefulIsClosed(states, events, k);
      }
    } else {
      var k :| 0 <= k < |events| && !CarefulAt(states[k], events[k]);
      if Closed(states[k].tables.scopes) {
        ReachableIsSound(states, events, k);
        StepAt(states, events, k);
        StepClosed(states[k], events[k], states[k + 1]);
      }
    }
  }

  /** No scope is removed while a client is past its first insertion, and scopes are deleted
      from below. */
  ghost predicate RemovalsApart(states: seq<State>, events: seq<Event>)
    requires |states| == |events| + 1
  {
    && (forall k, i :: 0 <= k < |events| && 0 <= i < |states[k].clients| ==>
          events[k].act.DeleteEmpty? || events[k].act.DeleteScope? ==> NotInserting(states[k].clients[i]))
    && forall k :: 0 <= k < |events| && events[k].act.DeleteScope? ==>
         forall s :: s in states[k].tables.scopes ==> !ScopePath.IsAncestorOf(events[k].act.scope, s)
  }

  predicate NotInserting(c: Client) {
    c.Ensuring? ==> c.next == 0
  }

  /** A client in the middle of its insertions has its last one on hand. */
  ghost predicate OnHand(t: Tables, c: Client) {
    c.Ensuring? && 0 < c.next <= |ScopePath.Split(c.path)| ==> Ancestor(c.path, c.next - 1) in t.scopes
  }

  lemma StepKeepsOnHand(t: Tables, c: Client, act: Act, t': Tables, c': Client, other: Client)
    requires Does(t, c, act, t', c') && OnHand(t, c) && OnHand(t, other)
    requires act.DeleteEmpty? || act.DeleteScope? ==> NotInserting(other)
    ensures OnHand(t', other) && OnHand(t', c')
  {
    hide Chain, InUse, Ancestor, NoRepeats;
  }

  lemma {:induction false} ApartIsOnHand(states: seq<State>, events: seq<Event>, k: nat, i: nat)
    requires IsRun(states, events) && RemovalsApart(states, events) && k < |states| && i < |states[k].clients|
    ensures OnHand(states[k].tables, states[k].clients[i])
  {
    hide Does, OnHand;
    if k == 0 {
      IdleIsOnHand(states[0].tables);
    } else {
      StepAt(states, events, k - 1);
      var s, s', a := states[k - 1], states[k], events[k - 1].client;
      ApartIsOnHand(states, events, k - 1, i);
      ApartIsOnHand(states, events, k - 1, a);
      StepKeepsOnHand(s.tables, s.clients[a], events[k - 1].act, s'.tables, s'.clients[a], s.clients[i]);
    }
  }

  lemma IdleIsOnHand(t: Tables)
    ensures OnHand(t, Idle)
  {
  }

  /** So it is enough to keep removals apart from insertion sequences. */
  lemma ApartIsClosed(states: seq<State>, events: seq<Event>, k: nat)
    requires IsRun(states, events) && RemovalsApart(states, events) && k < |states|
    ensures Closed(states[k].tables.scopes)
  {
    hide Does, Closed, Ancestor, ScopePath.IsAncestorOf;
    forall j | 0 <= j < |events|
      ensures CarefulAt(states[j], events[j])
    {
      StepAt(states, events, j);
      ApartIsOnHand(states, events, j, events[j].client);
    }
    ClosedExactlyWhenCareful(states, events);
  }

  /** A run in which it is not kept: one client inserts the first scope of its path, another
      sweeps it away as empty, and the first goes on with the scope below it. */
  lemma SweepBetweenInsertions(path: string) returns (states: seq<State>, events: seq<Event>)
    requires |ScopePath.Split(path)| >= 2
    ensures IsRun(states, events) && !Closed(states[|states| - 1].tables.scopes)
  {
    hide Ancestor, Next;
    var none := Tables({}, map[], {});
    var first, second := Ancestor(path, 0), Ancestor(path, 1);
    assert {} + {first} == {first} && {} + {second} == {second};
    states := [State(none, [Idle, Idle]),
               State(none, [Ensuring(path, 0, None), Idle]),
               State(none.(scopes := {first}), [Ensuring(path, 1, None), Idle]),
               State(none, [Ensuring(path, 1, None), Idle]),
               State(none.(scopes := {second}), [Ensuring(path, 2, None), Idle])];
    events := [Event(0, Begin(path, None)), Event(0, InsertScope), Event(1, DeleteEmpty), Event(0, InsertScope)];
    FirstClientSteps(none, path, 0);
    FirstClientSteps(none, path, 1);
    SweepsAway(first, Ensuring(path, 1, None));
    assert !Guarded({}, path, 1);
    InsertingKeepsClosed({}, path, 1);
  }

  lemma FirstClientSteps(t: Tables, path: string, n: nat)
    requires n < |ScopePath.Split(path)|
    ensures Next(State(t, [Idle, Idle]), Event(0, Begin(path, None)), State(t, [Ensuring(path, 0, None), Idle]))
    ensures Next(State(t, [Ensuring(path, n, None), Idle]), Event(0, InsertScope),
                 State(t.(scopes := t.scopes + {Ancestor(path, n)}), [Ensuring(path, n + 1, None), Idle]))
  {
    hide Ancestor;
  }

  lemma SweepsAway(scope: string, c: Client)
    ensures var none := Tables({}, map[], {});
      Next(State(none.(scopes := {scope}), [c, Idle]), Event(1, DeleteEmpty), State(none, [c, Idle]))
  {
    assert ScopesUsed(map[]) == {};
    assert [c, Idle][1 := Idle] == [c, Idle];
  }

  // Versions.

  /** The steps that make or write the row `id`, whatever the call then reports. */
  ghost predicate Touches(t: Tables, c: Client, act: Act, id: ID) {
    match act
    case Create(entry, _) => entry.id == id
    case CreateOrUpdate(entry, _) =>
      if Taken(t.entries, entry.contentHash, entry.scope)
      then id in t.entries && HasKey(t.entries[id], entry.contentHash, entry.scope)
      else entry.id == id
    case WriteRow => c.Ensuring? && c.write.Some? && c.write.value.entry.id == id
    case _ => false
  }

  /** A write raises its row's version by exactly one, and no other row changes. */
  lemma WritesRaiseVersions(t: Tables, c: Client, act: Act, t': Tables, c': Client, id: ID)
    requires Sound(t) && Does(t, c, act, t', c') && id in t'.entries
    ensures id in t.entries && Touches(t, c, act, id) ==> t'.entries[id].version == t.entries[id].version + 1
    ensures id in t.entries && !Touches(t, c, act, id) ==> t'.entries[id] == t.entries[id]
    ensures id !in t.entries ==> (act.Create? || act.CreateOrUpdate?) && t'.entries[id] == act.entry
  {
    hide Chain, InUse, Ancestor, NoRepeats, Unlabelled, LabelledIfAny;
    if act.CreateOrUpdate? && Taken(t.entries, act.entry.contentHash, act.entry.scope) {
      var id' :| OverwritesRow(t, id', act.entry, act.labels, t');
      assert id in t.entries && id != id' ==> !HasKey(t.entries[id], act.entry.contentHash, act.entry.scope);
    }
  }

  // Optimistic concurrency.

  ghost predicate Remade(states: seq<State>, id: ID, i: nat, j: nat)
    requires j < |states|
  {
    exists k :: MadeAt(states, id, i, j, k)
  }

  ghost predicate MadeAt(states: seq<State>, id: ID, i: nat, j: nat, k: int)
    requires j < |states|
  {
    i <= k < j && id !in states[k].tables.entries && id in states[k + 1].tables.entries
  }

  lemma RemadeEarlier(states: seq<State>, id: ID, i: nat, j: nat)
    requires 0 < j < |states|
    ensures Remade(states, id, i, j - 1) ==> Remade(states, id, i, j)
  {
    if Remade(states, id, i, j - 1) {
      var k :| MadeAt(states, id, i, j - 1, k);
      assert MadeAt(states, id, i, j, k);
    }
  }

  ghost predicate SameOrNewer(t: Tables, t': Tables, id: ID)
    requires id in t.entries
  {
    id in t'.entries ==> t'.entries[id] == t.entries[id] || t'.entries[id].version > t.entries[id].version
  }

  /** From a read on, a row is as it was read, or newer, or gone, until its ID is used again. */
  lemma {:induction false} RowMovesOn(states: seq<State>, events: seq<Event>, id: ID, i: nat, j: nat)
    requires IsRun(states, events) && i <= j < |states| && id in states[i].tables.entries
    requires !Remade(states, id, i, j)
    ensures SameOrNewer(states[i].tables, states[j].tables, id)
  {
    hide Does, Sound;
    if j > i {
      RemadeEarlier(states, id, i, j);
      RowMovesOn(states, events, id, i, j - 1);
      assert !MadeAt(states, id, i, j, j - 1);
      if id in states[j].tables.entries {
        ReachableIsSound(states, events, j - 1);
        StepAt(states, events, j - 1);
        var a := events[j - 1].client;
        WritesRaiseVersions(states[j - 1].tables, states[j - 1].clients[a], events[j - 1].act,
                            states[j].tables, states[j].clients[a], id);
      }
    }
  }

  /** At `j` the update of `e` replaces its row. */
  ghost predicate WritesAt(states: seq<State>, events: seq<Event>, j: nat, e: Entry)
    requires IsSegment(states, events) && j < |events|
  {
    && events[j].act.WriteRow? && events[j].client < |states[j].clients|
    && var c := states[j].clients[events[j].client];
      c.Ensuring? && c.write.Some? && c.write.value.entry == e
  }

  lemma WriteNeedsVersion(states: seq<State>, events: seq<Event>, j: nat, e: Entry)
    requires IsSegment(states, events) && j < |events| && WritesAt(states, events, j, e)
    ensures WritesRow(states[j].tables, e, states[j + 1].tables)
  {
    StepAt(states, events, j);
  }

  /** A client reads a row at `i` and updates it with the version it read. If the row is
      replaced, whether or not the call then succeeds, it is the row that was read: no write in
      between is lost. */
  lemma NoLostUpdate(states: seq<State>, events: seq<Event>, i: nat, j: nat, e: Entry)
    requires IsRun(states, events) && i <= j < |events| && WritesAt(states, events, j, e)
    requires e.id in states[i].tables.entries && e.version == states[i].tables.entries[e.id].version
    ensures e.id in states[j].tables.entries
    ensures Remade(states, e.id, i, j) || states[j].tables.entries[e.id] == states[i].tables.entries[e.id]
    ensures states[j + 1].tables.entries == states[j].tables.entries[e.id := e.(version := e.version + 1)]
  {
    WriteNeedsVersion(states, events, j, e);
    if !Remade(states, e.id, i, j) {
      RowMovesOn(states, events, e.id, i, j);
    }
  }

  /** No step makes a row under an ID that an earlier state knew. */
  ghost predicate FreshIds(states: seq<State>) {
    forall k, k', id :: 0 <= k <= k' < |states| - 1 ==>
      id in states[k].tables.entries && id !in states[k'].tables.entries ==> id !in states[k' + 1].tables.entries
  }

  lemma FreshIdsAreNotRemade(states: seq<State>, id: ID, i: nat, j: nat)
    requires FreshIds(states) && i <= j < |states| && id in states[i].tables.entries
    ensures !Remade(states, id, i, j)
  {
  }

  /** With IDs never used again, an update replaces exactly the row its caller read. */
  lemma UpdateReplacesWhatWasRead(states: seq<State>, events: seq<Event>, i: nat, j: nat, e: Entry)
    requires IsRun(states, events) && FreshIds(states) && i <= j < |events| && WritesAt(states, events, j, e)
    requires e.id in states[i].tables.entries && e.version == states[i].tables.entries[e.id].version
    ensures e.id in states[j].tables.entries
    ensures states[j].tables.entries[e.id] == states[i].tables.entries[e.id]
  {
    NoLostUpdate(states, events, i, j, e);
    FreshIdsAreNotRemade(states, e.id, i, j);
  }

  /** Nor can two updates based on the same read both replace the row, not even when the first
      of them reports a failure. */
  lemma OnlyOneUpdateWins(states: seq<State>, events: seq<Event>, i: nat, j: nat, j': nat, e: Entry, e': Entry)
    requires IsRun(states, events) && FreshIds(states) && i <= j < j' < |events|
    requires WritesAt(states, events, j, e) && e.id == e'.id && e.version == e'.version
    requires e.id in states[i].tables.entries && e.version == states[i].tables.entries[e.id].version
    ensures !WritesAt(states, events, j', e')
  {
    hide FreshIds, Remade, Next;
    NoLostUpdate(states, events, i, j, e);
    FreshIdsAreNotRemade(states, e.id, j + 1, j');
    RowMovesOn(states, events, e.id, j + 1, j');
    if WritesAt(states, events, j', e') {
      WriteNeedsVersion(states, events, j', e');
    }
  }

  // Each call on its own is a run of its statements.

  lemma Then(states: seq<State>, events: seq<Event>, event: Event, s: State)
    requires IsSegment(states, events) && Next(states[|events|], event, s)
    ensures IsSegment(states + [s], events + [event])
    ensures |states| == |events| + 1
  {
    hide Next;
    forall k | 0 <= k < |events + [event]|
      ensures Next((states + [s])[k], (events + [event])[k], (states + [s])[k + 1])
    {
      if k < |events| {
        StepAt(states, events, k);
      }
    }
  }

  lemma InsertStep(t: Tables, path: string, n: nat, write: Option<Write>)
    requires n < |ScopePath.Split(path)|
    ensures Next(State(t, [Ensuring(path, n, write)]), Event(0, InsertScope),
                 State(t.(scopes := t.scopes + {Ancestor(path, n)}), [Ensuring(path, n + 1, write)]))
  {
    hide Ancestor;
  }

  lemma BeginStep(t: Tables, path: string, write: Option<Write>)
    requires write.Some? ==> write.value.entry.scope == path
    ensures IsSegment([State(t, [Idle]), State(t, [Ensuring(path, 0, write)])], [Event(0, Begin(path, write))])
  {
  }

  lemma {:induction false} Insertions(t: Tables, path: string, n: nat, write: Option<Write>)
      returns (states: seq<State>, events: seq<Event>)
    requires n <= |ScopePath.Split(path)| && (write.Some? ==> write.value.entry.scope == path)
    ensures IsSegment(states, events) && |states| == |events| + 1 && states[0] == State(t, [Idle])
    ensures states[|events|] == State(t.(scopes := t.scopes + FirstOf(path, n)), [Ensuring(path, n, write)])
  {
    hide IsSegment, Next, FirstOf, Ancestor;
    if n == 0 {
      BeginStep(t, path, write);
      states, events := [State(t, [Idle]), State(t, [Ensuring(path, 0, write)])], [Event(0, Begin(path, write))];
      NoneInserted(t, path);
    } else {
      states, events := Insertions(t, path, n - 1, write);
      var before := t.(scopes := t.scopes + FirstOf(path, n - 1));
      var s := State(t.(scopes := t.scopes + FirstOf(path, n)), [Ensuring(path, n, write)]);
      OneMoreOf(t.scopes, path, n - 1);
      InsertStep(before, path, n - 1, write);
      assert s == State(before.(scopes := before.scopes + {Ancestor(path, n - 1)}), [Ensuring(path, n, write)]);
      Then(states, events, Event(0, InsertScope), s);
      states, events := states + [s], events + [Event(0, InsertScope)];
    }
  }

  lemma NoneInserted(t: Tables, path: string)
    ensures t.(scopes := t.scopes + FirstOf(path, 0)) == t
  {
  }

  lemma OneMoreOf(scopes: set<string>, path: string, i: nat)
    requires i < |ScopePath.Split(path)|
    ensures scopes + FirstOf(path, i + 1) == scopes + FirstOf(path, i) + {Ancestor(path, i)}
  {
    OneMore(path, i);
  }

  lemma {:induction false} Labellings(before: seq<State>, calls: seq<Event>, t: Tables, id: ID, labels: seq<string>,
                                      n: nat)
      returns (states: seq<State>, events: seq<Event>)
    requires IsSegment(before, calls) && before[|calls|] == State(t, [Labelling(id, labels, 0)])
    requires id in t.entries && n <= |labels| + 1 && (n > 0 ==> NoRepeats(labels[..n - 1]))
    ensures IsSegment(states, events) && states[0] == before[0]
    ensures states[|events|] == State(t.(labels := LabelledUpTo(t.labels, id, labels, n)), [Labelling(id, labels, n)])
  {
    if n == 0 {
      states, events := before, calls;
    } else {
      assert n > 1 ==> labels[..n - 1][..n - 2] == labels[..n - 2];
      states, events := Labellings(before, calls, t, id, labels, n - 1);
      LabelStep(t.labels, id, labels, n);
      var s := State(t.(labels := LabelledUpTo(t.labels, id, labels, n)), [Labelling(id, labels, n)]);
      Then(states, events, Event(0, SaveLabel), s);
      states, events := states + [s], events + [Event(0, SaveLabel)];
    }
  }

  lemma LabelStep(rows: set<LabelRow>, id: ID, labels: seq<string>, n: nat)
    requires 0 < n <= |labels| + 1 && NoRepeats(labels[..n - 1])
    ensures n == 1 ==> LabelledUpTo(rows, id, labels, n) == Unlabelled(rows, {id})
    ensures n > 1 ==>
      var before := LabelledUpTo(rows, id, labels, n - 1);
      (id, labels[n - 2]) !in before && LabelledUpTo(rows, id, labels, n) == before + {(id, labels[n - 2])}
  {
    var front := labels[..n - 1];
    if n == 1 {
      FirstSaved(rows, id, labels);
    } else {
      assert front[..n - 2] == labels[..n - 2];
      NextSaved(rows, id, front, n - 2);
      assert LabelledUpTo(rows, id, front, n - 1) == LabelledUpTo(rows, id, labels, n - 1);
    }
  }

  lemma Returns(states: seq<State>, events: seq<Event>, t: Tables)
    requires IsSegment(states, events) && |states[|events|].clients| == 1 && states[|events|].tables == t
    ensures IsSegment(states + [State(t, [Idle])], events + [Event(0, Return)])
  {
    Then(states, events, Event(0, Return), State(t, [Idle]));
  }

  ghost predicate FromTo(states: seq<State>, events: seq<Event>, t: Tables, t': Tables) {
    IsSegment(states, events) && states[0] == State(t, [Idle]) && states[|events|] == State(t', [Idle])
  }

  /** An update of the store's, undisturbed: what its contract allows it to do is what its
      statements do one after the other. */
  lemma UpdateIsItsStatements(t: Tables, entry: Entry, labels: seq<string>, t': Tables)
      returns (states: seq<State>, events: seq<Event>)
    requires Updates(t, entry, labels, t') || BreaksOff(t, entry, labels, t') || Fails(t, entry.scope, t')
    ensures FromTo(states, events, t, t')
  {
    hide FirstOf, Chain, NoRepeats, LabelledUpTo;
    var path, write := entry.scope, Some(Write(entry, labels));
    var all := |ScopePath.Split(path)|;
    if Fails(t, path, t') {
      var m: nat :| t'.scopes == t.scopes + FirstOf(path, m);
      var n := if m < all then m else all;
      if m > all {
        NoMore(path, m);
      }
      states, events := Insertions(t, path, n, write);
    } else {
      states, events := Insertions(t, path, all, write);
      AllOfChain(path);
      InChain(path);
      var r := t'.(labels := t.labels);
      Then(states, events, Event(0, WriteRow), State(r, [Labelling(entry.id, labels, 0)]));
      states, events := states + [State(r, [Labelling(entry.id, labels, 0)])], events + [Event(0, WriteRow)];
      var n := LabelsDone(t.labels, entry.id, labels, t'.labels);
      states, events := Labellings(states, events, r, entry.id, labels, n);
    }
    Returns(states, events, t');
    states, events := states + [State(t', [Idle])], events + [Event(0, Return)];
  }

  /** The label that comes twice first. */
  lemma {:induction false} FirstRepeat(labels: seq<string>) returns (n: nat)
    requires !NoRepeats(labels)
    ensures n < |labels| && NoRepeats(labels[..n]) && labels[n] in labels[..n]
  {
    n := |labels| - 1;
    var front := labels[..n];
    if i, j :| 0 <= i < j < n && labels[i] == labels[j] {
      assert front[i] == front[j];
      n := FirstRepeat(front);
      assert labels[..n] == front[..n];
    } else {
      var i, j :| 0 <= i < j < |labels| && labels[i] == labels[j];
      assert front[i] == labels[n];
    }
  }

  /** Whenever the row can be replaced and a label comes twice, the statements of the update
      break it off with the row replaced: they get to the label that comes again, which finds
      its key taken. */
  lemma RepeatedLabelBreaksOff(t: Tables, entry: Entry, labels: seq<string>)
      returns (states: seq<State>, events: seq<Event>, t': Tables, n: nat)
    requires MayUpdate(t.entries, entry) && !NoRepeats(labels)
    ensures FromTo(states, events, t, t') && BreaksOff(t, entry, labels, t')
    ensures t'.entries[entry.id].version == t.entries[entry.id].version + 1
    ensures n < |labels| && (entry.id, labels[n]) in t'.labels && labels[n] in labels[..n]
  {
    hide NoRepeats;
    n := FirstRepeat(labels);
    var rows := LabelledUpTo(t.labels, entry.id, labels, n + 1);
    t' := Tables(t.scopes + Chain(entry.scope), t.entries[entry.id := entry.(version := entry.version + 1)], rows);
    assert BrokeOffAt(t.labels, entry.id, labels, rows, n + 1);
    states, events := UpdateIsItsStatements(t, entry, labels, t');
  }

  lemma NoMore(path: string, m: nat)
    requires m >= |ScopePath.Split(path)|
    ensures FirstOf(path, m) == FirstOf(path, |ScopePath.Split(path)|)
  {
  }

  lemma InChain(path: string)
    ensures path in Chain(path)
  {
  }

  lemma LabelsDone(rows: set<LabelRow>, id: ID, labels: seq<string>, rows': set<LabelRow>) returns (n: nat)
    requires (NoRepeats(labels) && rows' == Relabelled(rows, id, labels)) || PartlyLabelled(rows, id, labels, rows')
    ensures n <= |labels| + 1 && rows' == LabelledUpTo(rows, id, labels, n)
    ensures n > 0 ==> NoRepeats(labels[..n - 1])
  {
    if PartlyLabelled(rows, id, labels, rows') {
      n :| BrokeOffAt(rows, id, labels, rows', n);
    } else {
      n := |labels| + 1;
      assert labels[..|labels|] == labels;
    }
  }

  /** With an ID used again, a run in which an update replaces a row that nobody read: the row
      read is deleted, and a new one starts at the version the old one had. */
  lemma ReusedIdLosesWrite(read: Entry, other: Entry, written: Entry)
      returns (states: seq<State>, events: seq<Event>)
    requires read.id == other.id == written.id && read.version == other.version == written.version && read != other
    requires other.scope == written.scope == read.scope
    ensures IsRun(states, events) && |events| > 4
    ensures states[1].tables.entries == map[read.id := read]
    ensures states[|states| - 3].tables.entries == map[read.id := other]
    ensures WritesAt(states, events, |events| - 2, written) && written.version == read.version
  {
    hide IsSegment, Next, Chain;
    var chain := Chain(read.scope);
    var t3 := Tables(chain, map[read.id := other], {});
    var made, calls := Remaking(read, other);
    var path, write := read.scope, Some(Write(written, []));
    var more, inserted := Insertions(t3, path, |ScopePath.Split(path)|, write);
    AllOfChain(path);
    assert chain + chain == chain;
    JoinSegments(made, calls, more, inserted);
    states, events := made + more[1..], calls + inserted;
    InChain(path);
    var s := WriteStep(t3, written);
    Then(states, events, Event(0, WriteRow), s);
    states, events := states + [s], events + [Event(0, WriteRow)];
    Returns(states, events, s.tables);
    states, events := states + [State(s.tables, [Idle])], events + [Event(0, Return)];
    StartsEmpty(states, events);
  }

  lemma StartsEmpty(states: seq<State>, events: seq<Event>)
    requires IsSegment(states, events) && states[0] == State(Tables({}, map[], {}), [Idle])
    ensures IsRun(states, events)
  {
  }

  lemma WriteStep(t: Tables, written: Entry) returns (s: State)
    requires MayUpdate(t.entries, written) && written.scope in t.scopes
    ensures s.clients == [Labelling(written.id, [], 0)]
    ensures Next(State(t, [Ensuring(written.scope, |ScopePath.Split(written.scope)|, Some(Write(written, [])))]),
                 Event(0, WriteRow), s)
  {
    s := State(t.(entries := t.entries[written.id := written.(version := written.version + 1)]),
               [Labelling(written.id, [], 0)]);
  }

  lemma Remaking(read: Entry, other: Entry) returns (states: seq<State>, events: seq<Event>)
    requires read.id == other.id && read.scope == other.scope
    ensures IsSegment(states, events) && |states| == 4 && |events| == 3
    ensures states[0] == State(Tables({}, map[], {}), [Idle])
    ensures states[1] == State(Tables(Chain(read.scope), map[read.id := read], {}), [Idle])
    ensures states[3] == State(Tables(Chain(read.scope), map[read.id := other], {}), [Idle])
  {
    hide Chain;
    var none, chain := Tables({}, map[], {}), Chain(read.scope);
    var t1, t2 := Tables(chain, map[read.id := read], {}), Tables(chain, map[], {});
    var t3 := Tables(chain, map[read.id := other], {});
    NoLabels();
    assert {} + chain == chain && chain + chain == chain;
    assert Creates(none, read, [], t1) && Creates(t2, other, [], t3);
    assert Removes(t1, {read.id}, t2) by {
      assert t1.entries - {read.id} == t2.entries;
    }
    states := [State(none, [Idle]), State(t1, [Idle]), State(t2, [Idle]), State(t3, [Idle])];
    events := [Event(0, Create(read, [])), Event(0, Delete(read.id)), Event(0, Create(other, []))];
  }

  lemma JoinSegments(states: seq<State>, events: seq<Event>, more: seq<State>, calls: seq<Event>)
    requires IsSegment(states, events) && IsSegment(more, calls) && states[|events|] == more[0]
    ensures IsSegment(states + more[1..], events + calls)
    ensures (states + more[1..])[|events + calls|] == more[|calls|]
  {
    hide Next;
    var all, steps := states + more[1..], events + calls;
    forall k | 0 <= k < |steps|
      ensures Next(all[k], steps[k], all[k + 1])
    {
      if k < |events| {
        StepAt(states, events, k);
      } else {
        StepAt(more, calls, k - |events|);
      }
    }
  }

  // One row per content and scope.

  /** Saving the same content in the same scope again writes the same row again. */
  lemma SavingTwiceIsOneRow(t: Tables, t': Tables, t'': Tables, entry: Entry, again: Entry,
                            labels: seq<string>, labels': seq<string>)
    requires Saves(t, entry, labels, t') && Saves(t', again, labels', t'')
    requires again.contentHash == entry.contentHash && again.scope == entry.scope
    ensures t''.entries.Keys == t'.entries.Keys
    ensures exists id ::
      && id in t'.entries && HasKey(t'.entries[id], entry.contentHash, entry.scope)
      && t''.entries == t'.entries[id := Overwritten(t'.entries[id], again)]
  {
    hide Chain, LabelledIfAny, NoRepeats;
    assert Taken(t'.entries, again.contentHash, again.scope) by {
      if Taken(t.entries, entry.contentHash, entry.scope) {
        var id :| Overwrites(t, id, entry, labels, t');
        assert HasKey(t'.entries[id], entry.contentHash, entry.scope);
      } else {
        assert HasKey(t'.entries[entry.id], entry.contentHash, entry.scope);
      }
    }
    var id :| Overwrites(t', id, again, labels', t'');
    assert t''.entries.Keys == t'.entries.Keys + {id};
  }
}
