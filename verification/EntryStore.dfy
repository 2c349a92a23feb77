/** The entry, label and scope tables and the operations that write them
    (`storage/sqlite/entry.go`, `storage/sqlite/scope.go`). */
module EntryStore {
  import opened Model
  import opened Hierarchy
  import opened Sorting
  import Like
  import ScopePath

  /** One row of the label table: an entry and one of its labels. */
  type LabelRow = (ID, string)

  datatype Tables = Tables(scopes: set<string>, entries: map<ID, Entry>, labels: set<LabelRow>)

  predicate HasKey(entry: Entry, contentHash: string, scope: string) {
    entry.contentHash == contentHash && entry.scope == scope
  }

  predicate Taken(entries: map<ID, Entry>, contentHash: string, scope: string) {
    exists id :: id in entries && HasKey(entries[id], contentHash, scope)
  }

  predicate TakenByOther(entries: map<ID, Entry>, id: ID, contentHash: string, scope: string) {
    exists id' :: id' in entries && id' != id && HasKey(entries[id'], contentHash, scope)
  }

  ghost predicate UniqueKeys(entries: map<ID, Entry>) {
    forall id, id' :: id in entries && id' in entries && id != id' ==>
      !HasKey(entries[id], entries[id'].contentHash, entries[id'].scope)
  }

  /** Rows sit under their own ID, no two share content hash and scope, every entry's scope is
      there, and labels belong to entries. The keys and foreign keys of the schema see to that. */
  ghost predicate Sound(t: Tables) {
    && (forall id :: id in t.entries ==> t.entries[id].id == id)
    && UniqueKeys(t.entries)
    && (forall id :: id in t.entries ==> t.entries[id].scope in t.scopes)
    && (forall row :: row in t.labels ==> row.0 in t.entries)
  }

  /** And the scopes are closed under parents, which no key sees to. */
  ghost predicate Consistent(t: Tables) {
    Sound(t) && Closed(t.scopes)
  }

  // Labels.

  function LabelsOf(rows: set<LabelRow>, id: ID): set<string> {
    set r | r in rows && r.0 == id :: r.1
  }

  function Unlabelled(rows: set<LabelRow>, gone: set<ID>): set<LabelRow> {
    set r | r in rows && r.0 !in gone
  }

  function LabelRows(id: ID, labels: seq<string>): set<LabelRow> {
    set l | l in labels :: (id, l)
  }

  /** The label rows after the first `n` statements that replace an entry's labels: one
      deletes the old ones, the others insert one new label each. */
  function LabelledUpTo(rows: set<LabelRow>, id: ID, labels: seq<string>, n: nat): set<LabelRow>
    requires n <= |labels| + 1
  {
    if n == 0 then rows else Unlabelled(rows, {id}) + LabelRows(id, labels[..n - 1])
  }

  function Relabelled(rows: set<LabelRow>, id: ID, labels: seq<string>): set<LabelRow> {
    LabelledUpTo(rows, id, labels, |labels| + 1)
  }

  /** The replacing broke off: a label comes twice, or a statement failed. */
  ghost predicate PartlyLabelled(rows: set<LabelRow>, id: ID, labels: seq<string>, rows': set<LabelRow>) {
    exists n :: BrokeOffAt(rows, id, labels, rows', n)
  }

  ghost predicate BrokeOffAt(rows: set<LabelRow>, id: ID, labels: seq<string>, rows': set<LabelRow>, n: nat) {
    n <= |labels| && rows' == LabelledUpTo(rows, id, labels, n) && (n > 0 ==> NoRepeats(labels[..n - 1]))
  }

  /** A new entry without labels leaves the label table alone. */
  function LabelledIfAny(rows: set<LabelRow>, id: ID, labels: seq<string>): set<LabelRow> {
    if labels == [] then rows else Relabelled(rows, id, labels)
  }

  /** The row a write leaves where `row` was: the caller's columns, the row's identity. */
  function Overwritten(row: Entry, entry: Entry): Entry {
    entry.(id := row.id, contentHash := row.contentHash, scope := row.scope, version := row.version + 1)
  }

  function ScopesUsed(entries: map<ID, Entry>): set<string> {
    set id | id in entries :: entries[id].scope
  }

  predicate Expired(entry: Entry, now: int) {
    entry.expiresAt.Some? && entry.expiresAt.value <= now
  }

  // What each operation does to the tables.

  /** A failure that leaves the rows: at most some leading scopes of `path` are new. */
  ghost predicate Fails(t: Tables, path: string, t': Tables) {
    t'.entries == t.entries && t'.labels == t.labels && exists n: nat :: t'.scopes == t.scopes + FirstOf(path, n)
  }

  /** A new row, whatever became of its labels. */
  ghost predicate Inserts(t: Tables, entry: Entry, t': Tables) {
    && entry.id !in t.entries && !Taken(t.entries, entry.contentHash, entry.scope)
    && t'.scopes == t.scopes + Chain(entry.scope)
    && t'.entries == t.entries[entry.id := entry]
  }

  /** New columns in the row `id`, which has the entry's key. */
  ghost predicate Rewrites(t: Tables, id: ID, entry: Entry, t': Tables) {
    && id in t.entries && HasKey(t.entries[id], entry.contentHash, entry.scope)
    && t'.scopes == t.scopes + Chain(entry.scope)
    && t'.entries == t.entries[id := Overwritten(t.entries[id], entry)]
  }

  /** All the labels of a new or rewritten row, of which none are saved if none are given. */
  ghost predicate AllLabelled(t: Tables, id: ID, labels: seq<string>, t': Tables) {
    NoRepeats(labels) && t'.labels == LabelledIfAny(t.labels, id, labels)
  }

  /** Some of them, or all. */
  ghost predicate SomeLabelled(t: Tables, id: ID, labels: seq<string>, t': Tables) {
    PartlyLabelled(t.labels, id, labels, t'.labels) || AllLabelled(t, id, labels, t')
  }

  ghost predicate Creates(t: Tables, entry: Entry, labels: seq<string>, t': Tables) {
    Inserts(t, entry, t') && AllLabelled(t, entry.id, labels, t')
  }

  /** A new row with some of its labels. */
  ghost predicate CreatesRow(t: Tables, entry: Entry, labels: seq<string>, t': Tables) {
    Inserts(t, entry, t') && SomeLabelled(t, entry.id, labels, t')
  }

  /** What a failed `Create` leaves to the transaction it joined: some scopes, or the row. */
  ghost predicate CreatesInPart(t: Tables, entry: Entry, labels: seq<string>, t': Tables) {
    Fails(t, entry.scope, t') || CreatesRow(t, entry, labels, t')
  }

  ghost predicate Overwrites(t: Tables, id: ID, entry: Entry, labels: seq<string>, t': Tables) {
    Rewrites(t, id, entry, t') && AllLabelled(t, id, labels, t')
  }

  /** `CreateOrUpdate`. */
  ghost predicate Saves(t: Tables, entry: Entry, labels: seq<string>, t': Tables) {
    if Taken(t.entries, entry.contentHash, entry.scope) then exists id :: Overwrites(t, id, entry, labels, t')
    else Creates(t, entry, labels, t')
  }

  ghost predicate OverwritesRow(t: Tables, id: ID, entry: Entry, labels: seq<string>, t': Tables) {
    Rewrites(t, id, entry, t') && SomeLabelled(t, id, labels, t')
  }

  ghost predicate SavesRow(t: Tables, entry: Entry, labels: seq<string>, t': Tables) {
    if Taken(t.entries, entry.contentHash, entry.scope) then exists id :: OverwritesRow(t, id, entry, labels, t')
    else CreatesRow(t, entry, labels, t')
  }

  /** The row `id` is the entry, or the one that had its key with the entry's columns. */
  ghost predicate RowSaved(entries: map<ID, Entry>, entry: Entry, entries': map<ID, Entry>, id: ID) {
    if Taken(entries, entry.contentHash, entry.scope) then
      && id in entries && HasKey(entries[id], entry.contentHash, entry.scope)
      && entries' == entries[id := Overwritten(entries[id], entry)]
    else
      id == entry.id && id !in entries && entries' == entries[id := entry]
  }

  /** What a failed `CreateOrUpdate` leaves to the transaction it joined. */
  ghost predicate SavesInPart(t: Tables, entry: Entry, labels: seq<string>, t': Tables) {
    Fails(t, entry.scope, t') || SavesRow(t, entry, labels, t')
  }

  /** The version still stands, and no other row has the new content. */
  predicate MayUpdate(entries: map<ID, Entry>, entry: Entry) {
    && entry.id in entries && entries[entry.id].version == entry.version
    && !TakenByOther(entries, entry.id, entry.contentHash, entry.scope)
  }

  /** The row is replaced, whatever became of its labels. */
  ghost predicate Replaces(t: Tables, entry: Entry, t': Tables) {
    && MayUpdate(t.entries, entry)
    && t'.scopes == t.scopes + Chain(entry.scope)
    && t'.entries == t.entries[entry.id := entry.(version := entry.version + 1)]
  }

  ghost predicate Updates(t: Tables, entry: Entry, labels: seq<string>, t': Tables) {
    Replaces(t, entry, t') && NoRepeats(labels) && t'.labels == Relabelled(t.labels, entry.id, labels)
  }

  /** An update that fails after its row was replaced. */
  ghost predicate BreaksOff(t: Tables, entry: Entry, labels: seq<string>, t': Tables) {
    Replaces(t, entry, t') && PartlyLabelled(t.labels, entry.id, labels, t'.labels)
  }

  /** Removing entries takes their labels along. */
  ghost predicate Removes(t: Tables, gone: set<ID>, t': Tables) {
    t' == Tables(t.scopes, t.entries - gone, Unlabelled(t.labels, gone))
  }

  function ExpiredIds(entries: map<ID, Entry>, now: int): set<ID> {
    set id | id in entries && Expired(entries[id], now)
  }

  ghost predicate Sweeps(t: Tables, t': Tables) {
    t' == t.(scopes := set s | s in t.scopes && InUse(s, ScopesUsed(t.entries)))
  }

  // What that means for rows and labels, in plain words.

  lemma LabelsMean(rows: set<LabelRow>, id: ID, labels: seq<string>)
    ensures forall row: LabelRow :: row in Relabelled(rows, id, labels) <==>
      if row.0 == id then row.1 in labels else row in rows
  {
    assert labels[..|labels|] == labels;
  }

  lemma LabelsOfMean(rows: set<LabelRow>, id: ID)
    ensures forall l :: l in LabelsOf(rows, id) <==> (id, l) in rows
  {
  }

  lemma CreatesMeans(t: Tables, entry: Entry, labels: seq<string>, t': Tables)
    requires Sound(t) && Creates(t, entry, labels, t')
    ensures t'.entries == t.entries[entry.id := entry]
    ensures forall row: LabelRow :: row in t'.labels <==> row in t.labels || (row.0 == entry.id && row.1 in labels)
  {
    LabelsMean(t.labels, entry.id, labels);
  }

  /** The row with the entry's key holds the caller's columns, one version on if it was there. */
  lemma SavesMeans(t: Tables, entry: Entry, labels: seq<string>, t': Tables, row: Entry)
    requires Sound(t) && Saves(t, entry, labels, t')
    requires row.id in t'.entries && t'.entries[row.id] == row && HasKey(row, entry.contentHash, entry.scope)
    ensures t'.entries == t.entries[row.id := row]
    ensures row == entry.(id := row.id, version := row.version)
    ensures forall id :: id in t.entries ==>
      t.entries[id].contentHash == entry.contentHash && t.entries[id].scope == entry.scope ==>
        row.id == id && row.version == t.entries[id].version + 1
    ensures (forall id :: id in t.entries ==>
               !(t.entries[id].contentHash == entry.contentHash && t.entries[id].scope == entry.scope)) ==> row == entry
    ensures forall other: LabelRow :: other in t'.labels <==>
      if other.0 == row.id && labels != [] then other.1 in labels else other in t.labels
  {
    hide Chain;
    if Taken(t.entries, entry.contentHash, entry.scope) {
      var id :| Overwrites(t, id, entry, labels, t');
      LabelsMean(t.labels, id, labels);
    } else {
      LabelsMean(t.labels, entry.id, labels);
    }
  }

  lemma RemovesMeans(t: Tables, gone: set<ID>, t': Tables)
    requires Sound(t) && Removes(t, gone, t')
    ensures forall row: LabelRow :: row in t'.labels <==> row in t.labels && row.0 in t'.entries
  {
  }

  lemma SweepsMean(t: Tables, t': Tables)
    requires Sweeps(t, t')
    ensures forall s :: s in t'.scopes <==>
      && s in t.scopes
      && exists id :: id in t.entries && (t.entries[id].scope == s || Like.Matches(s + ".%", t.entries[id].scope))
  {
    hide Like.Matches;
    forall s
      ensures InUse(s, ScopesUsed(t.entries)) <==>
        exists id :: id in t.entries && (t.entries[id].scope == s || Like.Matches(s + ".%", t.entries[id].scope))
    {
      if u :| u in ScopesUsed(t.entries) && (u == s || Like.Matches(Like.Below(s), u)) {
        var id :| id in t.entries && t.entries[id].scope == u;
      }
      if id :| id in t.entries && (t.entries[id].scope == s || Like.Matches(s + ".%", t.entries[id].scope)) {
        assert t.entries[id].scope in ScopesUsed(t.entries) && Like.Below(s) == s + ".%";
      }
    }
  }

  lemma ChainMeans(path: string)
    ensures forall s :: s in Chain(path) <==>
      s == path || exists p :: 0 <= p < |path| && path[p] == '.' && s == path[..p]
  {
  }

  // Every operation keeps the tables sound, and closed scopes closed.

  ghost predicate Keeps(t: Tables, t': Tables) {
    Sound(t') && (Closed(t.scopes) ==> Closed(t'.scopes))
  }

  lemma FailureKeeps(t: Tables, path: string, t': Tables)
    requires Sound(t) && Fails(t, path, t')
    ensures Keeps(t, t')
  {
    hide Closed;
    var n: nat :| t'.scopes == t.scopes + FirstOf(path, n);
    if Closed(t.scopes) {
      EnsuringKeepsClosed(t.scopes, path, n);
    }
  }

  lemma CreateKeeps(t: Tables, entry: Entry, labels: seq<string>, t': Tables)
    requires Sound(t) && CreatesRow(t, entry, labels, t')
    ensures Keeps(t, t')
  {
    hide Chain, Closed;
    ChainKeepsClosed(t.scopes, entry.scope);
  }

  lemma OverwriteKeeps(t: Tables, id: ID, entry: Entry, labels: seq<string>, t': Tables)
    requires Sound(t) && OverwritesRow(t, id, entry, labels, t')
    ensures Keeps(t, t')
  {
    hide Chain, Closed;
    ChainKeepsClosed(t.scopes, entry.scope);
  }

  lemma ReplaceKeeps(t: Tables, entry: Entry, labels: seq<string>, t': Tables)
    requires Sound(t) && (Updates(t, entry, labels, t') || BreaksOff(t, entry, labels, t'))
    ensures Keeps(t, t')
  {
    hide Chain, Closed;
    ChainKeepsClosed(t.scopes, entry.scope);
  }

  lemma RemoveKeeps(t: Tables, gone: set<ID>, t': Tables)
    requires Sound(t) && Removes(t, gone, t')
    ensures Keeps(t, t')
  {
  }

  lemma SweepKeeps(t: Tables, t': Tables)
    requires Sound(t) && Sweeps(t, t')
    ensures Keeps(t, t')
  {
    hide Closed;
    if Closed(t.scopes) {
      SweepKeepsClosed(t.scopes, ScopesUsed(t.entries));
    }
  }

  class Store {
    const hash: string -> string
    var scopes: set<string>
    var entries: map<ID, Entry>
    var labels: set<LabelRow>
    /** Statements that went through so far, and those that failed for reasons outside the tables. */
    ghost var ran: nat
    ghost var faults: nat

    constructor (hash: string -> string)
      ensures Consistent(Now()) && Now() == Tables({}, map[], {}) && this.hash == hash
    {
      this.hash := hash;
      scopes, entries, labels, ran, faults := {}, map[], {}, 0, 0;
    }

    ghost function Now(): Tables
      reads this
    {
      Tables(scopes, entries, labels)
    }

    /** A statement sent to the database may fail. */
    method Call() returns (ok: bool)
      modifies this`ran, this`faults
      ensures if ok then ran == old(ran) + 1 && faults == old(faults) else ran == old(ran) && faults == old(faults) + 1
    {
      ok := *;
      if ok {
        ran := ran + 1;
      } else {
        faults := faults + 1;
      }
    }

    method EnsureHierarchy(path: string) returns (ok: bool)
      requires Sound(Now())
      modifies this`scopes, this`ran, this`faults
      ensures Keeps(old(Now()), Now())
      ensures ok ==> scopes == old(scopes) + Chain(path)
      ensures ok ==> forall s :: s in scopes <==>
        s in old(scopes) || s == path || exists p :: 0 <= p < |path| && path[p] == '.' && s == path[..p]
      ensures Fails(old(Now()), path, Now())
      ensures faults >= old(faults) && (ok <==> faults == old(faults))
      ensures if ok then ran == old(ran) + |ScopePath.Split(path)| else ran < old(ran) + |ScopePath.Split(path)|
    {
      hide Sound, Keeps, Chain;
      var segments := ScopePath.Split(path);
      ghost var before := scopes;
      assert scopes == before + FirstOf(path, 0);
      for i := 0 to |segments|
        invariant scopes == before + FirstOf(path, i)
        invariant faults == old(faults) && ran == old(ran) + i
      {
        var ancestorPath := ScopePath.Join(segments[..i + 1]);
        ok := Call();
        if !ok {
          FailureKeeps(old(Now()), path, Now());
          return;
        }
        OneMore(path, i);
        scopes := scopes + {ancestorPath};
      }
      AllOfChain(path);
      ChainMeans(path);
      FailureKeeps(old(Now()), path, Now());
      return true;
    }

    /** `saveLabels`: replaces an entry's labels, one statement for each. A label given twice
        breaks it off. */
    method SaveLabels(id: ID, given: seq<string>) returns (ok: bool)
      modifies this`labels, this`ran, this`faults
      ensures ok ==> labels == Relabelled(old(labels), id, given)
      ensures ok ==> forall row: LabelRow :: row in labels <==>
        if row.0 == id then row.1 in given else row in old(labels)
      ensures !ok ==> PartlyLabelled(old(labels), id, given, labels)
      ensures faults >= old(faults) && ran >= old(ran)
      ensures ok <==> faults == old(faults) && NoRepeats(given)
    {
      hide NoRepeats, LabelledUpTo;
      ghost var before := labels;
      ok := Call();
      if !ok {
        NoneSaved(before, id, given);
        return;
      }
      labels := Unlabelled(labels, {id});
      FirstSaved(before, id, given);
      for i := 0 to |given|
        invariant labels == LabelledUpTo(before, id, given, i + 1) && NoRepeats(given[..i])
        invariant faults == old(faults) && ran >= old(ran)
      {
        NextSaved(before, id, given, i);
        assert BrokeOffAt(before, id, given, labels, i + 1);
        ok := Call();
        if !ok {
          return;
        }
        if (id, given[i]) in labels {
          return false;
        }
        labels := labels + {(id, given[i])};
      }
      assert given[..|given|] == given;
      LabelsMean(before, id, given);
      return true;
    }

    /** The row with this content hash and scope, by the unique index. */
    method Find(contentHash: string, scope: string) returns (id: Option<ID>)
      ensures id.None? ==> !Taken(entries, contentHash, scope)
      ensures id.Some? ==> id.value in entries && HasKey(entries[id.value], contentHash, scope)
    {
      if i :| i in entries && HasKey(entries[i], contentHash, scope) {
        return Some(i);
      }
      return None;
    }

    function Prepared(entry: Entry): Entry {
      entry.(contentHash := if entry.contentHash == "" then hash(entry.content) else entry.contentHash,
             version := if entry.version == 0 then 1 else entry.version)
    }

    method CreateInner(entry: Entry, given: seq<string>) returns (outcome: Outcome<Entry>)
      requires Sound(Now())
      modifies this`scopes, this`entries, this`labels, this`ran, this`faults
      ensures Keeps(old(Now()), Now())
      ensures outcome.Ok? ==> outcome.value == Prepared(entry) && Creates(old(Now()), Prepared(entry), given, Now())
      ensures outcome.Ok? ==>
        && outcome.value == entry.(contentHash := if entry.contentHash == "" then hash(entry.content)
                                                  else entry.contentHash,
                                   version := if entry.version == 0 then 1 else entry.version)
        && entries == old(entries)[entry.id := outcome.value]
        && forall row: LabelRow :: row in labels <==> row in old(labels) || (row.0 == entry.id && row.1 in given)
      ensures outcome.Err? ==> CreatesInPart(old(Now()), Prepared(entry), given, Now())
      ensures
        var contentHash := if entry.contentHash == "" then hash(entry.content) else entry.contentHash;
        var taken := entry.id in old(entries) || exists id ::
          id in old(entries) && old(entries)[id].contentHash == contentHash && old(entries)[id].scope == entry.scope;
        && (outcome == Err(DuplicateContent) ==> taken)
        && (taken ==> outcome.Err? && entries == old(entries))
        && (outcome.Err? ==> outcome.error in {DuplicateContent, StorageFailure})
        && (faults == old(faults) ==>
              && (outcome.Ok? <==> !taken && NoRepeats(given))
              && (outcome == Err(DuplicateContent) <==> taken)
              && (!taken ==> Inserts(old(Now()), Prepared(entry), Now())))
      ensures faults >= old(faults)
      ensures outcome.Ok? || outcome.error != StorageFailure ==> faults == old(faults)
    {
      hide Sound, Keeps, Chain, Fails, NoRepeats, PartlyLabelled;
      var row := Prepared(entry);
      var ok := EnsureHierarchy(row.scope);
      if !ok {
        return Err(StorageFailure);
      }
      ok := Call();
      if !ok {
        return Err(StorageFailure);
      }
      var holder := Find(row.contentHash, row.scope);
      if row.id in entries || holder.Some? {
        return Err(DuplicateContent);
      }
      entries := entries[row.id := row];
      NoLabels();
      if |given| > 0 {
        ok := SaveLabels(row.id, given);
      }
      CreateKeeps(old(Now()), row, given, Now());
      if ok {
        CreatesMeans(old(Now()), row, given, Now());
      }
      if !ok {
        return Err(StorageFailure);
      }
      return Ok(row);
    }

    /** Inserts a new row, in the caller's transaction if there is one (`joined`), and
        otherwise in one of its own, which keeps nothing of a failure. */
    method Create(entry: Entry, given: seq<string>, joined: bool) returns (outcome: Outcome<Entry>)
      requires Sound(Now())
      modifies this`scopes, this`entries, this`labels, this`ran, this`faults
      ensures Keeps(old(Now()), Now())
      ensures outcome.Ok? ==> outcome.value == Prepared(entry) && Creates(old(Now()), Prepared(entry), given, Now())
      ensures outcome.Ok? ==>
        && outcome.value == entry.(contentHash := if entry.contentHash == "" then hash(entry.content)
                                                  else entry.contentHash,
                                   version := if entry.version == 0 then 1 else entry.version)
        && entries == old(entries)[entry.id := outcome.value]
        && forall row: LabelRow :: row in labels <==> row in old(labels) || (row.0 == entry.id && row.1 in given)
      ensures outcome.Err? ==>
        if joined then CreatesInPart(old(Now()), Prepared(entry), given, Now()) else Now() == old(Now())
      ensures
        var contentHash := if entry.contentHash == "" then hash(entry.content) else entry.contentHash;
        var taken := entry.id in old(entries) || exists id ::
          id in old(entries) && old(entries)[id].contentHash == contentHash && old(entries)[id].scope == entry.scope;
        && (outcome == Err(DuplicateContent) ==> taken)
        && (outcome.Err? ==> outcome.error in {DuplicateContent, StorageFailure})
        && (faults == old(faults) ==>
              && (outcome.Ok? <==> !taken && NoRepeats(given))
              && (outcome == Err(DuplicateContent) <==> taken)
              && (joined ==> (entries != old(entries) <==> !taken)))
      ensures faults >= old(faults)
      ensures outcome.Ok? || outcome.error != StorageFailure ==> faults == old(faults)
    {
      hide Sound, Keeps, Chain, Fails, NoRepeats, CreatesInPart;
      if joined {
        outcome := CreateInner(entry, given);
        return;
      }
      var snapshot := (scopes, entries, labels);
      var ok := Call();
      if ok {
        outcome := CreateInner(entry, given);
      } else {
        outcome := Err(StorageFailure);
      }
      if outcome.Ok? {
        ok := Call();
        if !ok {
          outcome := Err(StorageFailure);
        }
      }
      if outcome.Err? {
        scopes, entries, labels := snapshot.0, snapshot.1, snapshot.2;
        Unchanged(old(Now()), Now());
      }
    }

    /** The row with the entry's key as it now is, with its labels. */
    ghost predicate IsSaved(entry: Entry, saved: (Entry, set<string>))
      reads this`entries, this`labels
    {
      && HasKey(saved.0, entry.contentHash, entry.scope)
      && saved.0.id in entries && entries[saved.0.id] == saved.0
      && saved.1 == LabelsOf(labels, saved.0.id)
    }

    /** `INSERT` with `ON CONFLICT (content_hash, scope) DO UPDATE`. */
    method Upsert(row: Entry) returns (id: Option<ID>)
      modifies this`entries, this`ran, this`faults
      ensures id.None? ==> entries == old(entries)
      ensures id.Some? ==> RowSaved(old(entries), row, entries, id.value)
      ensures faults >= old(faults) && (id.Some? ==> faults == old(faults))
      ensures faults == old(faults) ==>
        (id.Some? <==> row.id !in old(entries) || old(Taken(entries, row.contentHash, row.scope)))
    {
      var ok := Call();
      var holder := Find(row.contentHash, row.scope);
      if !ok || (holder.None? && row.id in entries) {
        return None;
      }
      if holder.None? {
        entries := entries[row.id := row];
        return Some(row.id);
      }
      entries := entries[holder.value := Overwritten(entries[holder.value], row)];
      return holder;
    }

    method CreateOrUpdateInner(entry: Entry, given: seq<string>) returns (outcome: Outcome<(Entry, set<string>)>)
      requires Sound(Now())
      modifies this`scopes, this`entries, this`labels, this`ran, this`faults
      ensures Keeps(old(Now()), Now())
      ensures outcome.Ok? ==>
        && Saves(old(Now()), Prepared(entry), given, Now())
        && IsSaved(Prepared(entry), outcome.value)
      ensures outcome.Ok? ==>
        var row := outcome.value.0;
        var contentHash := if entry.contentHash == "" then hash(entry.content) else entry.contentHash;
        && row.content == entry.content && row.contentHash == contentHash && row.scope == entry.scope
        && row.embedding == entry.embedding && row.embeddingDim == entry.embeddingDim
        && row.expiresAt == entry.expiresAt
        && entries == old(entries)[row.id := row]
        && (forall id :: id in old(entries) ==>
              old(entries)[id].contentHash == contentHash && old(entries)[id].scope == entry.scope ==>
                row.id == id && row.version == old(entries)[id].version + 1)
        && ((forall id :: id in old(entries) ==>
               !(old(entries)[id].contentHash == contentHash && old(entries)[id].scope == entry.scope)) ==>
             row.id == entry.id && row.version == if entry.version == 0 then 1 else entry.version)
        && (forall other: LabelRow :: other in labels <==>
              if other.0 == row.id && given != [] then other.1 in given else other in old(labels))
        && (forall l :: l in outcome.value.1 <==> (row.id, l) in labels)
      ensures outcome.Err? ==> outcome.error == StorageFailure && SavesInPart(old(Now()), Prepared(entry), given, Now())
      ensures faults == old(faults) ==>
        (outcome.Ok? <==>
           && NoRepeats(given)
           && (entry.id !in old(entries) || exists id ::
                 && id in old(entries) && old(entries)[id].scope == entry.scope
                 && old(entries)[id].contentHash ==
                    if entry.contentHash == "" then hash(entry.content) else entry.contentHash))
      ensures faults >= old(faults)
      ensures outcome.Ok? || outcome.error != StorageFailure ==> faults == old(faults)
    {
      hide Sound, Keeps, Chain, Fails, NoRepeats, LabelsOf, SomeLabelled, AllLabelled, RowSaved,
           Relabelled, PartlyLabelled, Saves, SavesRow, Overwritten;
      var row := Prepared(entry);
      var ok := EnsureHierarchy(row.scope);
      if !ok {
        return Err(StorageFailure);
      }
      var id := Upsert(row);
      if id.None? {
        return Err(StorageFailure);
      }
      if |given| > 0 {
        ok := Call();
        if ok {
          ok := SaveLabels(id.value, given);
        }
      }
      SomeAreLabelled(old(Now()), id.value, given, Now(), ok);
      RowIsSaved(old(Now()), row, given, Now(), id.value);
      if ok {
        ok := Call();
      }
      if ok {
        ok := Call();
      }
      if !ok {
        return Err(StorageFailure);
      }
      SavesMeans(old(Now()), row, given, Now(), entries[id.value]);
      LabelsOfMean(labels, id.value);
      return Ok((entries[id.value], LabelsOf(labels, id.value)));
    }

    /** Inserts, or overwrites the row with the same content hash and scope, in the caller's
        transaction or one of its own. */
    method CreateOrUpdate(entry: Entry, given: seq<string>, joined: bool)
      returns (outcome: Outcome<(Entry, set<string>)>)
      requires Sound(Now())
      modifies this`scopes, this`entries, this`labels, this`ran, this`faults
      ensures Keeps(old(Now()), Now())
      ensures outcome.Ok? ==>
        && Saves(old(Now()), Prepared(entry), given, Now())
        && IsSaved(Prepared(entry), outcome.value)
      ensures outcome.Ok? ==>
        var row := outcome.value.0;
        var contentHash := if entry.contentHash == "" then hash(entry.content) else entry.contentHash;
        && row.content == entry.content && row.contentHash == contentHash && row.scope == entry.scope
        && row.embedding == entry.embedding && row.embeddingDim == entry.embeddingDim
        && row.expiresAt == entry.expiresAt
        && entries == old(entries)[row.id := row]
        && (forall id :: id in old(entries) ==>
              old(entries)[id].contentHash == contentHash && old(entries)[id].scope == entry.scope ==>
                row.id == id && row.version == old(entries)[id].version + 1)
        && ((forall id :: id in old(entries) ==>
               !(old(entries)[id].contentHash == contentHash && old(entries)[id].scope == entry.scope)) ==>
             row.id == entry.id && row.version == if entry.version == 0 then 1 else entry.version)
        && (forall other: LabelRow :: other in labels <==>
              if other.0 == row.id && given != [] then other.1 in given else other in old(labels))
        && (forall l :: l in outcome.value.1 <==> (row.id, l) in labels)
      ensures outcome.Err? ==>
        && outcome.error == StorageFailure
        && if joined then SavesInPart(old(Now()), Prepared(entry), given, Now()) else Now() == old(Now())
      ensures faults == old(faults) ==>
        (outcome.Ok? <==>
           && NoRepeats(given)
           && (entry.id !in old(entries) || exists id ::
                 && id in old(entries) && old(entries)[id].scope == entry.scope
                 && old(entries)[id].contentHash ==
                    if entry.contentHash == "" then hash(entry.content) else entry.contentHash))
      ensures faults >= old(faults)
      ensures outcome.Ok? || outcome.error != StorageFailure ==> faults == old(faults)
    {
      hide Sound, Keeps, NoRepeats, Saves, SavesInPart, IsSaved;
      if joined {
        outcome := CreateOrUpdateInner(entry, given);
        return;
      }
      var snapshot := (scopes, entries, labels);
      var ok := Call();
      if ok {
        outcome := CreateOrUpdateInner(entry, given);
      } else {
        outcome := Err(StorageFailure);
      }
      if outcome.Ok? {
        ok := Call();
        if !ok {
          outcome := Err(StorageFailure);
        }
      }
      if outcome.Err? {
        scopes, entries, labels := snapshot.0, snapshot.1, snapshot.2;
        Unchanged(old(Now()), Now());
      }
    }

    method Get(id: ID) returns (outcome: Outcome<(Entry, set<string>)>)
      modifies this`ran, this`faults
      ensures outcome.Ok? ==> id in entries && outcome.value == (entries[id], LabelsOf(labels, id))
      ensures outcome == Err(NotFound) ==> id !in entries
      ensures outcome.Err? ==> outcome.error in {NotFound, StorageFailure}
      ensures faults == old(faults) ==> (outcome.Ok? <==> id in entries) && outcome != Err(StorageFailure)
      ensures faults >= old(faults)
      ensures outcome.Ok? || outcome.error != StorageFailure ==> faults == old(faults)
    {
      var ok := Call();
      if !ok {
        return Err(StorageFailure);
      }
      if id !in entries {
        return Err(NotFound);
      }
      ok := Call();
      if !ok {
        return Err(StorageFailure);
      }
      return Ok((entries[id], LabelsOf(labels, id)));
    }

    /** Replaces the row if its version is still the one the caller read, statement by statement
        and outside any transaction. So a failed update has replaced the row exactly when the
        row could be replaced and the statement that does it went through: then a label came
        twice, or a later statement failed. Without a fault it has done so exactly when the row
        could be replaced and a label came twice, which its caller can tell beforehand. */
    method Update(entry: Entry, given: seq<string>) returns (outcome: Outcome<Entry>)
      requires Sound(Now())
      modifies this`scopes, this`entries, this`labels, this`ran, this`faults
      ensures Keeps(old(Now()), Now())
      ensures outcome.Ok? <==>
        && entry.id in old(entries) && old(entries)[entry.id].version == entry.version
        && (forall id :: id in old(entries) && id != entry.id ==>
              !(old(entries)[id].contentHash == hash(entry.content) && old(entries)[id].scope == entry.scope))
        && NoRepeats(given) && faults == old(faults)
      ensures outcome.Ok? ==>
        && outcome.value == entry.(contentHash := hash(entry.content), version := entry.version + 1)
        && entries == old(entries)[entry.id := outcome.value]
        && forall row: LabelRow :: row in labels <==> if row.0 == entry.id then row.1 in given else row in old(labels)
      ensures var e := entry.(contentHash := hash(entry.content));
        && (outcome.Ok? <==> MayUpdate(old(entries), e) && NoRepeats(given) && faults == old(faults))
        && (outcome.Ok? ==> Updates(old(Now()), e, given, Now()) && entries[e.id] == outcome.value)
        && (outcome.Err? ==>
              if MayUpdate(old(entries), e) && ran > old(ran) + |ScopePath.Split(e.scope)|
              then BreaksOff(old(Now()), e, given, Now()) && outcome.error == StorageFailure
              else Fails(old(Now()), e.scope, Now()))
      ensures var e := entry.(contentHash := hash(entry.content));
        && (outcome == Err(NotFound) ==> e.id !in old(entries))
        && (forall expected, actual :: outcome == Err(ConcurrentModification(expected, actual)) ==>
              && e.id in old(entries) && actual == old(entries)[e.id].version
              && expected == e.version && actual != expected)
        && (faults == old(faults) ==>
              && (outcome == Err(NotFound) <==> e.id !in old(entries))
              && (outcome.Err? && outcome.error.ConcurrentModification? <==>
                    e.id in old(entries) && old(entries)[e.id].version != e.version))
      ensures var e := entry.(contentHash := hash(entry.content));
        faults == old(faults) ==>
          && (entries != old(entries) <==> MayUpdate(old(entries), e))
          && (MayUpdate(old(entries), e) ==> Replaces(old(Now()), e, Now()))
      ensures faults >= old(faults)
      ensures outcome.Ok? || outcome.error != StorageFailure ==> faults == old(faults)
    {
      hide Sound, Keeps, Chain, Fails, FirstOf, NoRepeats, Relabelled, PartlyLabelled;
      var e := entry.(contentHash := hash(entry.content));
      var ok := EnsureHierarchy(e.scope);
      if !ok {
        return Err(StorageFailure);
      }
      ok := Call();
      if !ok {
        return Err(StorageFailure);
      }
      if e.id in entries && entries[e.id].version == e.version {
        if other :| other in entries && other != e.id && HasKey(entries[other], e.contentHash, e.scope) {
          return Err(StorageFailure);
        }
        var written := e.(version := e.version + 1);
        entries := entries[e.id := written];
        ok := SaveLabels(e.id, given);
        ReplaceKeeps(old(Now()), e, given, Now());
        if !ok {
          return Err(StorageFailure);
        }
        LabelsMean(old(labels), e.id, given);
        return Ok(written);
      }
      ok := Call();
      if !ok {
        return Err(StorageFailure);
      }
      if e.id !in entries {
        return Err(NotFound);
      }
      return Err(ConcurrentModification(e.version, entries[e.id].version));
    }

    method Delete(id: ID) returns (outcome: Outcome<()>)
      requires Sound(Now())
      modifies this`entries, this`labels, this`ran, this`faults
      ensures Keeps(old(Now()), Now())
      ensures if outcome.Ok? then id in old(entries) && Removes(old(Now()), {id}, Now()) else Now() == old(Now())
      ensures outcome.Ok? ==>
        && entries == old(entries) - {id}
        && forall row: LabelRow :: row in labels <==> row in old(labels) && row.0 != id
      ensures outcome.Err? && outcome.error != StorageFailure ==> outcome.error == NotFound && id !in entries
      ensures faults == old(faults) ==> outcome == if id in old(entries) then Ok(()) else Err(NotFound)
      ensures faults >= old(faults)
      ensures outcome.Ok? || outcome.error != StorageFailure ==> faults == old(faults)
    {
      hide Sound, Closed;
      var ok := Call();
      if !ok {
        return Err(StorageFailure);
      }
      if id !in entries {
        return Err(NotFound);
      }
      entries, labels := entries - {id}, Unlabelled(labels, {id});
      RemoveKeeps(old(Now()), {id}, Now());
      return Ok(());
    }

    method DeleteExpired(now: int) returns (outcome: Outcome<nat>)
      requires Sound(Now())
      modifies this`entries, this`labels, this`ran, this`faults
      ensures Keeps(old(Now()), Now())
      ensures outcome.Ok? ==>
        && Removes(old(Now()), ExpiredIds(old(entries), now), Now())
        && outcome.value == |old(entries)| - |entries|
      ensures outcome.Ok? ==>
        && (forall id :: id in entries <==>
              && id in old(entries)
              && (old(entries)[id].expiresAt.Some? ==> old(entries)[id].expiresAt.value > now))
        && (forall id :: id in entries ==> entries[id] == old(entries)[id])
        && forall row: LabelRow :: row in labels <==> row in old(labels) && row.0 in entries
      ensures outcome.Err? ==> Now() == old(Now())
      ensures outcome.Ok? <==> faults == old(faults)
      ensures faults >= old(faults)
      ensures outcome.Ok? || outcome.error != StorageFailure ==> faults == old(faults)
    {
      hide Sound, Closed;
      var ok := Call();
      if !ok {
        return Err(StorageFailure);
      }
      var gone := ExpiredIds(entries, now);
      CountRemoved(entries, gone);
      entries, labels := entries - gone, Unlabelled(labels, gone);
      RemoveKeeps(old(Now()), gone, Now());
      RemovesMeans(old(Now()), gone, Now());
      return Ok(|gone|);
    }

    /** Removes the scopes no entry stands in or, by the pattern, below. */
    method DeleteEmpty() returns (outcome: Outcome<nat>)
      requires Sound(Now())
      modifies this`scopes, this`ran, this`faults
      ensures Keeps(old(Now()), Now())
      ensures outcome.Ok? ==> Sweeps(old(Now()), Now()) && outcome.value == |old(scopes)| - |scopes|
      ensures outcome.Ok? ==> forall s :: s in scopes <==>
        && s in old(scopes)
        && exists id :: id in entries && (entries[id].scope == s || Like.Matches(s + ".%", entries[id].scope))
      ensures outcome.Err? ==> Now() == old(Now())
      ensures outcome.Ok? <==> faults == old(faults)
      ensures faults >= old(faults)
      ensures outcome.Ok? || outcome.error != StorageFailure ==> faults == old(faults)
    {
      hide Like.Matches, Sound, Closed, InUse, ScopesUsed;
      var ok := Call();
      if !ok {
        return Err(StorageFailure);
      }
      var used := ScopesUsed(entries);
      var empty := set s | s in scopes && s !in used &&
        !(exists u :: u in used && Like.Matches(Like.Below(s), u));
      SweptScopes(scopes, used, empty);
      scopes := scopes - empty;
      SweepKeeps(old(Now()), Now());
      SweepsMean(old(Now()), Now());
      return Ok(|empty|);
    }

    /** Deletes one scope; the foreign key keeps those that entries stand in. The hierarchy
        survives exactly when nothing lies below the scope. */
    method DeleteScope(path: string) returns (outcome: Outcome<()>)
      requires Sound(Now())
      modifies this`scopes, this`ran, this`faults
      ensures Sound(Now())
      ensures outcome.Ok? ==> path in old(scopes) && path !in ScopesUsed(entries)
      ensures outcome.Ok? ==> forall id :: id in entries ==> entries[id].scope != path
      ensures scopes == old(scopes) - if outcome.Ok? then {path} else {}
      ensures old(Closed(scopes)) ==>
        (Closed(scopes) <==> outcome.Err? || forall s :: s in old(scopes) ==> !ScopePath.IsAncestorOf(path, s))
      ensures outcome.Err? && outcome.error != StorageFailure ==> outcome.error == NotFound && path !in scopes
      ensures faults == old(faults) ==> (outcome.Ok? <==> path in old(scopes) && path !in ScopesUsed(entries))
      ensures faults >= old(faults)
      ensures outcome.Ok? || outcome.error != StorageFailure ==> faults == old(faults)
    {
      hide Closed, ScopePath.IsAncestorOf;
      assert scopes - {} == scopes;
      var ok := Call();
      if !ok || path in ScopesUsed(entries) {
        return Err(StorageFailure);
      }
      if path !in scopes {
        return Err(NotFound);
      }
      if Closed(scopes) {
        DeletingKeepsClosed(scopes, path);
      }
      scopes := scopes - {path};
      return Ok(());
    }

    /** The scopes the pattern finds below `path`. On closed scopes and a path without `%`,
        these are all the descendants, and nothing else exactly when no other scope with
        something below it reads like `path`. */
    method ListDescendants(path: string) returns (found: Option<set<string>>)
      modifies this`ran, this`faults
      ensures found.Some? <==> faults == old(faults)
      ensures found.Some? ==>
        forall s :: s in found.value <==> s in scopes && s != path && Like.Matches(Like.Below(path), s)
      ensures found.Some? && Closed(scopes) && '%' !in path ==>
        && (forall s :: s in scopes && ScopePath.IsAncestorOf(path, s) ==> s in found.value)
        && ((forall s :: s in found.value ==> s in scopes && ScopePath.IsAncestorOf(path, s)) <==>
            (forall c, s :: c in scopes && Confusable(path, c) && s in scopes ==> !ScopePath.IsAncestorOf(c, s)))
    {
      hide Like.Matches, ScopePath.IsAncestorOf, Closed;
      var ok := Call();
      if !ok {
        return None;
      }
      if Closed(scopes) && '%' !in path {
        PatternIsExact(scopes, path);
      }
      return Some(set s | s in scopes && Like.Matches(Like.Below(path), s) && s != path);
    }
  }

  lemma Unchanged(t: Tables, t': Tables)
    requires Sound(t) && t' == t
    ensures Keeps(t, t')
  {
  }

  lemma SomeAreLabelled(t: Tables, id: ID, labels: seq<string>, t': Tables, ok: bool)
    requires if ok then NoRepeats(labels) || labels == [] else true
    requires if ok then t'.labels == LabelledIfAny(t.labels, id, labels)
             else t'.labels == t.labels || PartlyLabelled(t.labels, id, labels, t'.labels)
    ensures SomeLabelled(t, id, labels, t') && (ok ==> AllLabelled(t, id, labels, t'))
  {
    NoneSaved(t.labels, id, labels);
  }

  /** Whatever became of the labels, the tables are sound; with all of them the entry is saved. */
  lemma RowIsSaved(t: Tables, entry: Entry, labels: seq<string>, t': Tables, id: ID)
    requires Sound(t) && RowSaved(t.entries, entry, t'.entries, id) && t'.scopes == t.scopes + Chain(entry.scope)
    requires SomeLabelled(t, id, labels, t')
    ensures Keeps(t, t') && SavesRow(t, entry, labels, t')
    ensures AllLabelled(t, id, labels, t') ==> Saves(t, entry, labels, t')
    ensures id in t'.entries && t'.entries[id].id == id && HasKey(t'.entries[id], entry.contentHash, entry.scope)
  {
    hide Chain, Keeps, SomeLabelled, AllLabelled;
    if Taken(t.entries, entry.contentHash, entry.scope) {
      assert OverwritesRow(t, id, entry, labels, t');
      assert AllLabelled(t, id, labels, t') ==> Overwrites(t, id, entry, labels, t');
      OverwriteKeeps(t, id, entry, labels, t');
    } else {
      CreateKeeps(t, entry, labels, t');
    }
  }

  lemma NoLabels()
    ensures NoRepeats<string>([])
  {
  }

  lemma NoneSaved(rows: set<LabelRow>, id: ID, labels: seq<string>)
    ensures PartlyLabelled(rows, id, labels, rows)
  {
    assert BrokeOffAt(rows, id, labels, rows, 0);
  }

  lemma FirstSaved(rows: set<LabelRow>, id: ID, labels: seq<string>)
    ensures LabelledUpTo(rows, id, labels, 1) == Unlabelled(rows, {id}) && NoRepeats(labels[..0])
  {
    assert LabelRows(id, labels[..0]) == {};
  }

  /** The next label goes in exactly when it did not come before. */
  lemma NextSaved(rows: set<LabelRow>, id: ID, labels: seq<string>, i: nat)
    requires i < |labels| && NoRepeats(labels[..i])
    ensures (id, labels[i]) in LabelledUpTo(rows, id, labels, i + 1) ==> !NoRepeats(labels)
    ensures (id, labels[i]) !in LabelledUpTo(rows, id, labels, i + 1) ==>
      && NoRepeats(labels[..i + 1])
      && LabelledUpTo(rows, id, labels, i + 2) ==
         LabelledUpTo(rows, id, labels, i + 1) + {(id, labels[i])}
  {
    assert labels[..i + 1] == labels[..i] + [labels[i]];
    if (id, labels[i]) in LabelledUpTo(rows, id, labels, i + 1) {
      var j :| 0 <= j < i && labels[..i][j] == labels[i];
      assert labels[j] == labels[i];
    } else {
      forall j | 0 <= j < i
        ensures labels[j] != labels[i]
      {
        assert labels[..i][j] in labels[..i];
      }
    }
  }

  lemma OneMore(path: string, i: nat)
    requires i < |ScopePath.Split(path)|
    ensures FirstOf(path, i + 1) == FirstOf(path, i) + {ScopePath.Join(ScopePath.Split(path)[..i + 1])}
  {
    hide ScopePath.Split, ScopePath.Join;
    assert Ancestor(path, i) == ScopePath.Join(ScopePath.Split(path)[..i + 1]);
  }

  lemma SweptScopes(scopes: set<string>, used: set<string>, empty: set<string>)
    requires forall s :: s in empty <==>
      s in scopes && s !in used && !(exists u :: u in used && Like.Matches(Like.Below(s), u))
    ensures scopes - empty == set s | s in scopes && InUse(s, used)
    ensures |scopes - empty| == |scopes| - |empty|
  {
    hide Like.Matches;
    assert empty <= scopes;
  }

  lemma CountRemoved(entries: map<ID, Entry>, gone: set<ID>)
    requires gone <= entries.Keys
    ensures |entries - gone| == |entries| - |gone|
  {
    assert (entries - gone).Keys == entries.Keys - gone;
    assert |(entries - gone).Keys| == |entries - gone|;
    assert |entries.Keys| == |entries|;
  }
}
