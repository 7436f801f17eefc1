/**
  The lock-free reader of the accounts database racing with cache flushers, slot shrinkers and cleaners.

  The shared state is the index, the write cache, the map of slot to storage and the map of
  shrinks in progress.  Every background job is a sequence of small atomic steps, and any number
  of jobs on different slots interleave with one another, with writers of unfrozen slots and with
  one reader.  This module has the steps and the invariant; module ProtocolInvariant proves that
  every step keeps it, and module ReaderSafety what the reader gets.
*/
module StorageProtocol {
  import opened Types

  datatype Location = Cached | AppendVec(id: StoreId, offset: Offset)

  /** Which background job is rewriting a slot; a shrink remembers the storage it replaces. */
  datatype Work = Flush | Shrink(previous: StoreId)

  datatype Job =
    | Purging(superseded: set<Pubkey>, kept: set<Pubkey>)
    | Writing(work: Work, id: StoreId, todo: set<Pubkey>, written: map<Pubkey, Offset>, doomed: set<Pubkey>)
    | Indexing(work: Work, id: StoreId, pending: map<Pubkey, Offset>, doomed: set<Pubkey>)
    | Replaced(id: StoreId)

  /**
    `logical` is what was last stored under a pubkey in a slot; no step of a background job reads it.
    `files` holds the contents of every storage ever created: a storage stays readable for whoever
    still holds a reference to it after it left the maps.  `roots` holds every root there ever was:
    a root whose entries are all gone from the index makes no difference to an index read.
  */
  datatype Db = Db(
    logical: map<Version, Account>,
    index: map<Version, Location>,
    cache: map<Slot, map<Pubkey, Account>>,
    storage: map<Slot, StoreId>,
    shrinking: map<Slot, StoreId>,
    files: map<StoreId, map<Offset, Account>>,
    nextId: StoreId,
    frozen: set<Slot>,
    roots: set<Slot>,
    jobs: map<Slot, Job>)

  datatype Step =
    | Write(s: Slot, k: Pubkey, account: Account)
    | PublishWrite(s: Slot, k: Pubkey)
    | Freeze(s: Slot)
    | AddRoot(s: Slot)
    | FlushBegin(s: Slot, outdated: set<Pubkey>)
    | PurgeKey(s: Slot, k: Pubkey)
    | FlushCreate(s: Slot)
    | CopyAccount(s: Slot, k: Pubkey, offset: Offset)
    | BeginIndexing(s: Slot)
    | IndexAccount(s: Slot, k: Pubkey)
    | FlushDrop(s: Slot)
    | ShrinkBegin(s: Slot, zeroes: set<Pubkey>)
    | DropZeroLamport(s: Slot, k: Pubkey)
    | ReplaceStore(s: Slot)
    | Unregister(s: Slot)
    | CleanOutdated(s: Slot, k: Pubkey)
    | CleanZeroLamport(s: Slot, k: Pubkey)
    | DropStorage(s: Slot)

  /** The steps that take an entry out of the index. */
  predicate TakesOut(step: Step) {
    step.PurgeKey? || step.DropZeroLamport? || step.CleanOutdated? || step.CleanZeroLamport?
  }

  function Empty(): (db: Db) {
    Db(map[], map[], map[], map[], map[], map[], 0, {}, {}, map[])
  }

  function IndexedAt(db: Db, s: Slot): (keys: set<Pubkey>) {
    set v | v in db.index && v.slot == s :: v.key
  }

  /** A newer root has a version of `k` in the index. */
  ghost predicate Superseded(db: Db, k: Pubkey, s: Slot) {
    exists newer :: newer in db.roots && s < newer && Version(k, newer) in db.index
  }

  /** No root older than `s` has a version of `k` in the index. */
  ghost predicate OldestRooted(db: Db, k: Pubkey, s: Slot) {
    forall r :: r in db.roots && r < s ==> Version(k, r) !in db.index
  }

  // ----- Steps: when one may happen and what it does -----

  /** Transactions write only to slots that are not frozen, and every such slot descends from the last root. */
  ghost predicate CanWrite(db: Db, s: Slot) {
    s !in db.frozen && forall r :: r in db.roots ==> r < s
  }

  function DoWrite(db: Db, s: Slot, k: Pubkey, account: Account): (db': Db) {
    var before := if s in db.cache then db.cache[s] else map[];
    db.(cache := db.cache[s := before[k := account]], logical := db.logical[Version(k, s) := account])
  }

  predicate CanPublish(db: Db, s: Slot, k: Pubkey) {
    s !in db.frozen && s in db.cache && k in db.cache[s]
  }

  function DoPublish(db: Db, s: Slot, k: Pubkey): (db': Db) {
    db.(index := db.index[Version(k, s) := Cached])
  }

  predicate CanFreeze(db: Db, s: Slot) {
    s !in db.frozen &&
    (s in db.cache ==> forall k :: k in db.cache[s] ==> Version(k, s) in db.index)
  }

  function DoFreeze(db: Db, s: Slot): (db': Db) {
    db.(frozen := db.frozen + {s})
  }

  predicate CanAddRoot(db: Db, s: Slot) {
    s in db.frozen && forall r :: r in db.roots ==> r < s
  }

  function DoAddRoot(db: Db, s: Slot): (db': Db) {
    db.(roots := db.roots + {s})
  }

  /** A flush skips the versions of a root that a newer root already supersedes. */
  ghost predicate CanFlush(db: Db, s: Slot, outdated: set<Pubkey>) {
    && s in db.frozen && s in db.cache && s !in db.jobs
    && outdated <= db.cache[s].Keys
    && (outdated != {} ==> s in db.roots)
    && (forall k :: k in outdated ==> Superseded(db, k, s))
  }

  function DoFlush(db: Db, s: Slot, outdated: set<Pubkey>): (db': Db)
    requires s in db.cache
  {
    db.(jobs := db.jobs[s := Purging(outdated, db.cache[s].Keys - outdated)])
  }

  predicate CanPurge(db: Db, s: Slot, k: Pubkey) {
    s in db.jobs && db.jobs[s].Purging? && k in db.jobs[s].superseded
  }

  function DoPurge(db: Db, s: Slot, k: Pubkey): (db': Db)
    requires CanPurge(db, s, k)
  {
    db.(index := db.index - {Version(k, s)},
        jobs := db.jobs[s := Purging(db.jobs[s].superseded - {k}, db.jobs[s].kept)])
  }

  predicate CanCreate(db: Db, s: Slot) {
    s in db.jobs && db.jobs[s].Purging? && db.jobs[s].superseded == {}
  }

  /** A slot with nothing left to store is dead; otherwise its storage gets a fresh id and enters the map. */
  function DoCreate(db: Db, s: Slot): (db': Db)
    requires CanCreate(db, s)
  {
    if db.jobs[s].kept == {} then
      db.(cache := db.cache - {s}, jobs := db.jobs - {s})
    else
      db.(storage := db.storage[s := db.nextId],
          files := db.files[db.nextId := map[]],
          nextId := db.nextId + 1,
          jobs := db.jobs[s := Writing(Flush, db.nextId, db.jobs[s].kept, map[], {})])
  }

  predicate CanCopy(db: Db, s: Slot, k: Pubkey, offset: Offset) {
    && s in db.jobs && db.jobs[s].Writing? && k in db.jobs[s].todo
    && db.jobs[s].id in db.files && offset !in db.files[db.jobs[s].id]
  }

  function ReadFile(db: Db, id: StoreId, offset: Offset): (a: Account) {
    if id in db.files && offset in db.files[id] then db.files[id][offset] else Account(0, [])
  }

  /** What a job copies: the cached account for a flush, the account at its indexed offset for a shrink. */
  function AccountToCopy(db: Db, s: Slot, k: Pubkey, work: Work): (a: Account) {
    match work
    case Flush =>
      if s in db.cache && k in db.cache[s] then db.cache[s][k] else Account(0, [])
    case Shrink(previous) =>
      var v := Version(k, s);
      if v in db.index && db.index[v].AppendVec? then ReadFile(db, previous, db.index[v].offset)
      else Account(0, [])
  }

  function DoCopy(db: Db, s: Slot, k: Pubkey, offset: Offset): (db': Db)
    requires CanCopy(db, s, k, offset)
  {
    var job := db.jobs[s];
    var account := AccountToCopy(db, s, k, job.work);
    var contents: map<Offset, Account> := db.files[job.id];
    db.(files := db.files[job.id := contents[offset := account]],
        jobs := db.jobs[s := job.(todo := job.todo - {k}, written := job.written[k := offset])])
  }

  predicate CanBeginIndexing(db: Db, s: Slot) {
    s in db.jobs && db.jobs[s].Writing? && db.jobs[s].todo == {}
  }

  function DoBeginIndexing(db: Db, s: Slot): (db': Db)
    requires CanBeginIndexing(db, s)
  {
    var job := db.jobs[s];
    db.(jobs := db.jobs[s := Indexing(job.work, job.id, job.written, job.doomed)])
  }

  predicate CanIndex(db: Db, s: Slot, k: Pubkey) {
    s in db.jobs && db.jobs[s].Indexing? && k in db.jobs[s].pending
  }

  function DoIndex(db: Db, s: Slot, k: Pubkey): (db': Db)
    requires CanIndex(db, s, k)
  {
    var job := db.jobs[s];
    db.(index := db.index[Version(k, s) := AppendVec(job.id, job.pending[k])],
        jobs := db.jobs[s := job.(pending := job.pending - {k})])
  }

  predicate CanDropCache(db: Db, s: Slot) {
    s in db.jobs && db.jobs[s].Indexing? && db.jobs[s].work.Flush? && db.jobs[s].pending == map[]
  }

  function DoDropCache(db: Db, s: Slot): (db': Db) {
    db.(cache := db.cache - {s}, jobs := db.jobs - {s})
  }

  /**
    `zeroes` are the zero-lamport accounts of the slot that have no older rooted version; shrink does not copy them.
  */
  ghost predicate CanShrink(db: Db, s: Slot, zeroes: set<Pubkey>) {
    && s in db.roots && s in db.storage && s !in db.cache && s !in db.jobs
    && zeroes < IndexedAt(db, s)
    && (forall k :: k in zeroes ==> Erasable(db, k, s))
  }

  function DoShrink(db: Db, s: Slot, zeroes: set<Pubkey>): (db': Db)
    requires s in db.storage
  {
    db.(shrinking := db.shrinking[s := db.nextId],
        files := db.files[db.nextId := map[]],
        nextId := db.nextId + 1,
        jobs := db.jobs[s := Writing(Shrink(db.storage[s]), db.nextId, IndexedAt(db, s) - zeroes, map[], zeroes)])
  }

  predicate CanErase(db: Db, s: Slot, k: Pubkey) {
    && s in db.jobs && db.jobs[s].Indexing? && db.jobs[s].work.Shrink?
    && db.jobs[s].pending == map[] && k in db.jobs[s].doomed
  }

  function DoErase(db: Db, s: Slot, k: Pubkey): (db': Db)
    requires CanErase(db, s, k)
  {
    var job := db.jobs[s];
    db.(index := db.index - {Version(k, s)}, jobs := db.jobs[s := job.(doomed := job.doomed - {k})])
  }

  predicate CanReplace(db: Db, s: Slot) {
    && s in db.jobs && db.jobs[s].Indexing? && db.jobs[s].work.Shrink?
    && db.jobs[s].pending == map[] && db.jobs[s].doomed == {}
  }

  function DoReplace(db: Db, s: Slot): (db': Db)
    requires CanReplace(db, s)
  {
    db.(storage := db.storage[s := db.jobs[s].id], jobs := db.jobs[s := Replaced(db.jobs[s].id)])
  }

  predicate CanUnregister(db: Db, s: Slot) {
    s in db.jobs && db.jobs[s].Replaced?
  }

  function DoUnregister(db: Db, s: Slot): (db': Db) {
    db.(shrinking := db.shrinking - {s}, jobs := db.jobs - {s})
  }

  // ----- Clean: take stored versions out of the index, then drop the storages nothing refers to -----

  predicate IsStored(db: Db, s: Slot, k: Pubkey) {
    Version(k, s) in db.index && db.index[Version(k, s)].AppendVec? && s !in db.jobs
  }

  /**
    Clean reclaims stored versions that a newer root supersedes.  A flush that marks obsolete accounts does the same,
    for the key it has just indexed, in one index write; here it may also be interrupted between the two.
  */
  ghost predicate CanCleanOutdated(db: Db, s: Slot, k: Pubkey) {
    IsStored(db, s, k) && Superseded(db, k, s)
  }

  /** Clean purges a zero-lamport key, its older versions before its newest one. */
  ghost predicate CanCleanZeroLamport(db: Db, s: Slot, k: Pubkey) {
    IsStored(db, s, k) && s in db.roots && Erasable(db, k, s)
  }

  function DoClean(db: Db, s: Slot, k: Pubkey): (db': Db) {
    db.(index := db.index - {Version(k, s)})
  }

  predicate CanDropStorage(db: Db, s: Slot) {
    s in db.storage && s !in db.jobs && IndexedAt(db, s) == {}
  }

  function DoDropStorage(db: Db, s: Slot): (db': Db) {
    db.(storage := db.storage - {s})
  }

  ghost predicate Enabled(db: Db, step: Step) {
    match step
    case Write(s, k, account) => CanWrite(db, s)
    case PublishWrite(s, k) => CanPublish(db, s, k)
    case Freeze(s) => CanFreeze(db, s)
    case AddRoot(s) => CanAddRoot(db, s)
    case FlushBegin(s, outdated) => CanFlush(db, s, outdated)
    case PurgeKey(s, k) => CanPurge(db, s, k)
    case FlushCreate(s) => CanCreate(db, s)
    case CopyAccount(s, k, offset) => CanCopy(db, s, k, offset)
    case BeginIndexing(s) => CanBeginIndexing(db, s)
    case IndexAccount(s, k) => CanIndex(db, s, k)
    case FlushDrop(s) => CanDropCache(db, s)
    case ShrinkBegin(s, zeroes) => CanShrink(db, s, zeroes)
    case DropZeroLamport(s, k) => CanErase(db, s, k)
    case ReplaceStore(s) => CanReplace(db, s)
    case Unregister(s) => CanUnregister(db, s)
    case CleanOutdated(s, k) => CanCleanOutdated(db, s, k)
    case CleanZeroLamport(s, k) => CanCleanZeroLamport(db, s, k)
    case DropStorage(s) => CanDropStorage(db, s)
  }

  function Apply(db: Db, step: Step): (db': Db)
    requires Enabled(db, step)
  {
    match step
    case Write(s, k, account) => DoWrite(db, s, k, account)
    case PublishWrite(s, k) => DoPublish(db, s, k)
    case Freeze(s) => DoFreeze(db, s)
    case AddRoot(s) => DoAddRoot(db, s)
    case FlushBegin(s, outdated) => DoFlush(db, s, outdated)
    case PurgeKey(s, k) => DoPurge(db, s, k)
    case FlushCreate(s) => DoCreate(db, s)
    case CopyAccount(s, k, offset) => DoCopy(db, s, k, offset)
    case BeginIndexing(s) => DoBeginIndexing(db, s)
    case IndexAccount(s, k) => DoIndex(db, s, k)
    case FlushDrop(s) => DoDropCache(db, s)
    case ShrinkBegin(s, zeroes) => DoShrink(db, s, zeroes)
    case DropZeroLamport(s, k) => DoErase(db, s, k)
    case ReplaceStore(s) => DoReplace(db, s)
    case Unregister(s) => DoUnregister(db, s)
    case CleanOutdated(s, k) => DoClean(db, s, k)
    case CleanZeroLamport(s, k) => DoClean(db, s, k)
    case DropStorage(s) => DoDropStorage(db, s)
  }

  // ----- What every step keeps -----

  ghost predicate Holds(db: Db, id: StoreId, offset: Offset, v: Version) {
    v in db.logical && id in db.files && offset in db.files[id] && db.files[id][offset] == db.logical[v]
  }

  /** The old and the new home of a slot under a job. */
  ghost predicate Homes(db: Db, s: Slot, work: Work, id: StoreId) {
    && id in db.files
    && s in db.storage
    && match work
       case Flush => s in db.cache && db.storage[s] == id && s !in db.shrinking
       case Shrink(previous) =>
         s !in db.cache && s in db.roots && db.storage[s] == previous && s in db.shrinking && db.shrinking[s] == id
           && previous < id
  }

  ghost predicate Erasable(db: Db, k: Pubkey, s: Slot) {
    Version(k, s) in db.logical && db.logical[Version(k, s)].lamports == 0 && OldestRooted(db, k, s)
  }

  ghost predicate JobOk(db: Db, s: Slot, job: Job) {
    match job
    case Purging(superseded, kept) =>
      && s in db.cache && s !in db.storage && s !in db.shrinking
      && superseded !! kept
      && (superseded != {} ==> s in db.roots)
      && (forall k :: k in kept ==> Version(k, s) in db.index)
      && (forall k :: k in superseded ==> Version(k, s) in db.index && Superseded(db, k, s))
    case Writing(work, id, todo, written, doomed) =>
      && Homes(db, s, work, id)
      && todo !! doomed && written.Keys !! doomed && todo !! written.Keys
      && (work.Flush? ==> doomed == {})
      && (forall k :: k in todo ==> Version(k, s) in db.index)
      && (forall k :: k in written ==> Holds(db, id, written[k], Version(k, s)) && Version(k, s) in db.index)
      && (forall k :: k in doomed ==> Version(k, s) in db.index && Erasable(db, k, s))
    case Indexing(work, id, pending, doomed) =>
      && Homes(db, s, work, id)
      && pending.Keys !! doomed
      && (work.Flush? ==> doomed == {})
      && (forall k :: k in pending ==> Holds(db, id, pending[k], Version(k, s)) && Version(k, s) in db.index)
      && (forall k :: k in doomed ==> Version(k, s) in db.index && Erasable(db, k, s))
    case Replaced(id) =>
      && s !in db.cache && s in db.roots && s in db.storage && db.storage[s] == id
      && s in db.shrinking && db.shrinking[s] == id && id in db.files
  }

  ghost predicate SlotOk(db: Db, s: Slot) {
    && (s in db.jobs ==> s in db.frozen && JobOk(db, s, db.jobs[s]))
    && (s !in db.jobs ==> s !in db.shrinking && (s in db.cache ==> s !in db.storage))
    && (s !in db.jobs && s in db.frozen && s in db.cache ==>
          forall k :: k in db.cache[s] ==> Version(k, s) in db.index)
    && (s !in db.frozen ==> s !in db.storage && s !in db.roots)
    && (s in db.storage ==> db.storage[s] in db.files)
  }

  /** The home a version must have in the old home of a slot under a job. */
  ghost predicate InOldHome(loc: Location, work: Work) {
    match work
    case Flush => loc.Cached?
    case Shrink(previous) => loc.AppendVec? && loc.id == previous
  }

  ghost predicate InStore(loc: Location, id: StoreId) {
    loc.AppendVec? && loc.id == id
  }

  /** Where the index must say a version is, given what is happening to its slot. */
  ghost predicate Placed(db: Db, v: Version)
    requires v in db.index
  {
    var loc := db.index[v];
    if v.slot !in db.jobs then
      if v.slot in db.cache then loc.Cached? else v.slot in db.storage && InStore(loc, db.storage[v.slot])
    else match db.jobs[v.slot]
      case Purging(superseded, kept) =>
        loc.Cached? && v.key in superseded + kept
      case Writing(work, id, todo, written, doomed) =>
        v.key in todo + written.Keys + doomed && InOldHome(loc, work)
      case Indexing(work, id, pending, doomed) =>
        if v.key in pending || v.key in doomed then InOldHome(loc, work) else InStore(loc, id)
      case Replaced(id) => InStore(loc, id)
  }

  ghost predicate VersionOk(db: Db, v: Version)
    requires v in db.index
  {
    && v in db.logical
    && Placed(db, v)
    && match db.index[v]
       case Cached => v.slot in db.cache
       case AppendVec(id, offset) => Holds(db, id, offset, v)
  }

  ghost predicate CacheOk(db: Db, v: Version)
    requires v in db.logical
  {
    && (v.slot in db.cache ==> v.key in db.cache[v.slot] && db.cache[v.slot][v.key] == db.logical[v])
    && (v.slot !in db.frozen ==> v.slot in db.cache)
  }

  /** A zero-lamport version at or above `s` was erased together with everything rooted below it. */
  ghost predicate Erased(db: Db, k: Pubkey, s: Slot) {
    exists zero :: ErasedAt(db, k, zero) && s <= zero
  }

  ghost predicate ErasedAt(db: Db, k: Pubkey, zero: Slot) {
    && zero in db.roots
    && Version(k, zero) in db.logical && db.logical[Version(k, zero)].lamports == 0
    && Version(k, zero) !in db.index
    && OldestRooted(db, k, zero)
  }

  /** A frozen version that left the index was superseded or erased. */
  ghost predicate GoneOk(db: Db, v: Version) {
    Superseded(db, v.key, v.slot) || Erased(db, v.key, v.slot)
  }

  ghost predicate FilesOk(db: Db) {
    forall id :: id in db.files ==> id < db.nextId
  }

  ghost predicate SlotsOk(db: Db) {
    forall s: Slot :: SlotOk(db, s)
  }

  ghost predicate VersionsOk(db: Db) {
    forall v :: v in db.index ==> VersionOk(db, v)
  }

  ghost predicate CachesOk(db: Db) {
    && (forall v :: v in db.logical ==> CacheOk(db, v))
    && (forall s, k :: s in db.cache && k in db.cache[s] ==> Version(k, s) in db.logical)
  }

  ghost predicate HistoryOk(db: Db) {
    forall v :: v in db.logical && v.slot in db.frozen && v !in db.index ==> GoneOk(db, v)
  }

  ghost predicate Inv(db: Db) {
    FilesOk(db) && SlotsOk(db) && VersionsOk(db) && CachesOk(db) && HistoryOk(db)
  }
}
