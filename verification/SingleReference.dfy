/**
  A shrink drops a zero-lamport account whose key has a single stored version, as its reference count
  tells.  Versions in the write cache are not counted: a run leads to a state in which dropping such an
  account would bring an older, funded version of the key back to readers.
*/
module SingleReference {
  import opened Types
  import opened StorageProtocol
  import opened ReaderSafety

  /** The slot has the only stored version of the key: what a reference count of one means. */
  ghost predicate SingleStored(db: Db, k: Pubkey, s: Slot) {
    forall t :: Version(k, t) in db.index && db.index[Version(k, t)].AppendVec? ==> t == s
  }

  /**
    It is the oldest rooted version, as the race demands, exactly when no older root has the key in the write cache.
  */
  lemma SingleRefIsOldest(db: Db, k: Pubkey, s: Slot)
    requires Inv(db) && SingleStored(db, k, s)
    ensures OldestRooted(db, k, s) <==>
            forall r :: r in db.roots && r < s && r in db.cache ==> Version(k, r) !in db.index
  {
    forall r | r in db.roots && r < s && Version(k, r) in db.index ensures r in db.cache {
      assert VersionOk(db, Version(k, r));
    }
  }

  // ----- Building a run -----

  ghost predicate RunsTo(states: seq<System>, actions: seq<Action>, db: Db) {
    IsRun(states, actions) && states[|actions|] == System(db, 0, {}, Idle, 0)
  }

  lemma Extend(states: seq<System>, actions: seq<Action>, db: Db, step: Step)
    returns (states': seq<System>, actions': seq<Action>)
    requires RunsTo(states, actions, db) && Enabled(db, step)
    ensures RunsTo(states', actions', Apply(db, step))
  {
    var action := Background(step);
    states', actions' := states + [Next(states[|actions|], action)], actions + [action];
    forall i | 0 <= i < |actions'|
      ensures Allowed(states'[i], actions'[i]) && states'[i + 1] == Next(states'[i], actions'[i])
    {
      if i < |actions| { assert states'[i] == states[i] && actions'[i] == actions[i]; }
    }
  }

  /** A new root whose only account is cached. */
  function CachedRoot(db: Db, s: Slot, k: Pubkey, account: Account): (db': Db) {
    db.(logical := db.logical[Version(k, s) := account],
        index := db.index[Version(k, s) := Cached],
        cache := db.cache[s := map[k := account]],
        frozen := db.frozen + {s},
        roots := db.roots + {s})
  }

  lemma AddCachedRoot(states: seq<System>, actions: seq<Action>, db: Db, s: Slot, k: Pubkey, account: Account)
    returns (states': seq<System>, actions': seq<Action>)
    requires RunsTo(states, actions, db) && CanWrite(db, s) && s !in db.cache
    ensures RunsTo(states', actions', CachedRoot(db, s, k, account))
  {
    states', actions' := Extend(states, actions, db, Write(s, k, account));
    var written := DoWrite(db, s, k, account);
    states', actions' := Extend(states', actions', written, PublishWrite(s, k));
    var published := DoPublish(written, s, k);
    states', actions' := Extend(states', actions', published, Freeze(s));
    states', actions' := Extend(states', actions', DoFreeze(published, s), AddRoot(s));
  }

  /** The one account of a slot moved from the cache to a new storage. */
  function Stored(db: Db, s: Slot, k: Pubkey, account: Account): (db': Db) {
    db.(index := db.index[Version(k, s) := AppendVec(db.nextId, 0)],
        cache := db.cache - {s},
        storage := db.storage[s := db.nextId],
        files := db.files[db.nextId := map[0 := account]],
        nextId := db.nextId + 1)
  }

  /** The flush once the storage is created, once its account is written, and once that is in the index. */
  function Created(db: Db, s: Slot, k: Pubkey): (db': Db) {
    db.(storage := db.storage[s := db.nextId],
        files := db.files[db.nextId := map[]],
        nextId := db.nextId + 1,
        jobs := db.jobs[s := Writing(Flush, db.nextId, {k}, map[], {})])
  }

  function Copied(db: Db, s: Slot, k: Pubkey, account: Account): (db': Db) {
    db.(storage := db.storage[s := db.nextId],
        files := db.files[db.nextId := map[0 := account]],
        nextId := db.nextId + 1,
        jobs := db.jobs[s := Indexing(Flush, db.nextId, map[k := 0], {})])
  }

  lemma CreateStorage(states: seq<System>, actions: seq<Action>, db: Db, s: Slot, k: Pubkey)
    returns (states': seq<System>, actions': seq<Action>)
    requires RunsTo(states, actions, db) && CanFlush(db, s, {}) && db.cache[s].Keys == {k}
    ensures RunsTo(states', actions', Created(db, s, k))
  {
    states', actions' := Extend(states, actions, db, FlushBegin(s, {}));
    var begun := DoFlush(db, s, {});
    assert db.cache[s].Keys - {} == {k};
    states', actions' := Extend(states', actions', begun, FlushCreate(s));
    assert begun.jobs[s := Writing(Flush, db.nextId, {k}, map[], {})] == Created(db, s, k).jobs;
  }

  lemma CopyLone(states: seq<System>, actions: seq<Action>, db: Db, s: Slot, k: Pubkey, account: Account)
    returns (states': seq<System>, actions': seq<Action>)
    requires s in db.cache && db.cache[s] == map[k := account] && RunsTo(states, actions, Created(db, s, k))
    ensures RunsTo(states', actions', Copied(db, s, k, account))
  {
    var created := Created(db, s, k);
    states', actions' := Extend(states, actions, created, CopyAccount(s, k, 0));
    var copied := DoCopy(created, s, k, 0);
    var work := Writing(Flush, db.nextId, {}, map[k := 0], {});
    assert {k} - {k} == {} && map[][k := 0] == map[k := 0];
    assert copied.jobs[s] == work && copied.files == db.files[db.nextId := map[0 := account]];
    states', actions' := Extend(states', actions', copied, BeginIndexing(s));
    assert copied.jobs[s := Indexing(Flush, db.nextId, map[k := 0], {})] == Copied(db, s, k, account).jobs;
  }

  lemma IndexLone(states: seq<System>, actions: seq<Action>, db: Db, s: Slot, k: Pubkey, account: Account)
    returns (states': seq<System>, actions': seq<Action>)
    requires s !in db.jobs && RunsTo(states, actions, Copied(db, s, k, account))
    ensures RunsTo(states', actions', Stored(db, s, k, account))
  {
    var copied := Copied(db, s, k, account);
    states', actions' := Extend(states, actions, copied, IndexAccount(s, k));
    var indexed := DoIndex(copied, s, k);
    assert map[k := 0] - {k} == map[];
    states', actions' := Extend(states', actions', indexed, FlushDrop(s));
    assert DoDropCache(indexed, s).jobs == db.jobs;
  }

  /** Flush a slot with one cached account. */
  lemma FlushLone(states: seq<System>, actions: seq<Action>, db: Db, s: Slot, k: Pubkey, account: Account)
    returns (states': seq<System>, actions': seq<Action>)
    requires RunsTo(states, actions, db) && CanFlush(db, s, {}) && db.cache[s] == map[k := account]
    ensures RunsTo(states', actions', Stored(db, s, k, account))
  {
    states', actions' := CreateStorage(states, actions, db, s, k);
    states', actions' := CopyLone(states', actions', db, s, k, account);
    states', actions' := IndexLone(states', actions', db, s, k, account);
  }

  // ----- The state -----

  /** Key 1 is funded and cached in root 3, and has no lamports in root 7, the first of the two to be flushed. */
  function Revived(funded: Account, zero: Account): (db: Db) {
    Stored(CachedRoot(CachedRoot(Empty(), 3, 1, funded), 7, 1, zero), 7, 1, zero)
  }

  lemma RevivedIsReachable(funded: Account, zero: Account) returns (states: seq<System>, actions: seq<Action>)
    ensures RunsTo(states, actions, Revived(funded, zero))
  {
    var first := CachedRoot(Empty(), 3, 1, funded);
    states, actions := AddCachedRoot([Start()], [], Empty(), 3, 1, funded);
    states, actions := AddCachedRoot(states, actions, first, 7, 1, zero);
    states, actions := FlushLone(states, actions, CachedRoot(first, 7, 1, zero), 7, 1, zero);
  }

  /**
    A reachable state in which root 7 has the single stored version of key 1, one without lamports, while dropping it
    would make the funded version in root 3 the latest one, although the newest one stored is that of root 7.
  */
  lemma SingleReferenceMisleads(funded: Account, zero: Account) returns (states: seq<System>, actions: seq<Action>)
    requires funded.lamports > 0 == zero.lamports
    ensures RunsTo(states, actions, Revived(funded, zero))
    ensures var db := Revived(funded, zero);
            var reader := System(DoClean(db, 7, 1), 1, {}, ReadIndex, 0);
            && SingleStored(db, 1, 7) && db.logical[Version(1, 7)] == zero && !OldestRooted(db, 1, 7)
            && LatestIndexed(reader, 3) && NewestStored(reader, 7) && db.logical[Version(1, 3)] == funded
  {
    states, actions := RevivedIsReachable(funded, zero);
    var db := Revived(funded, zero);
    assert 3 in db.roots && Version(1, 3) in db.index;
  }
}
