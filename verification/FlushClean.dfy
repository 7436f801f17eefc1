/**
  Flushing rooted slots from the write cache, newest first, while dropping versions that a newer
  flushed root outdates.
*/
module FlushClean {
  import opened Types

  datatype Place = InCache | InStorage

  datatype Accounts = Accounts(
    cache: map<Slot, map<Pubkey, Account>>,
    index: map<Version, Place>,
    storage: map<Slot, map<Pubkey, Account>>,
    roots: set<Slot>)

  /** The index lists what a cached slot holds, and otherwise points into the storage of its slot. */
  ghost predicate Consistent(db: Accounts) {
    && db.cache.Keys !! db.storage.Keys
    && (forall v :: v in db.index && v.slot in db.cache ==> db.index[v].InCache? && v.key in db.cache[v.slot])
    && (forall s, k :: s in db.cache && k in db.cache[s] ==> Version(k, s) in db.index)
    && (forall v :: v in db.index && v.slot !in db.cache ==>
         db.index[v].InStorage? && v.slot in db.storage && v.key in db.storage[v.slot])
  }

  /** The account a consistent index entry stands for. */
  ghost function Stored(db: Accounts, v: Version): (a: Account)
    requires Consistent(db) && v in db.index
  {
    if v.slot in db.cache then db.cache[v.slot][v.key] else db.storage[v.slot][v.key]
  }

  /** How one call flushes: which slots it cleans, and whether reclaimed storage versions leave the index. */
  datatype Mode = Mode(clean: bool, maxCleanRoot: Option<Slot>, markObsolete: bool) {
    predicate Cleans(s: Slot) {
      clean && (maxCleanRoot.None? || s <= maxCleanRoot.value)
    }
  }

  // ----- One slot -----

  function Outdates(db: Accounts, slot: Slot, mode: Mode, written: set<Pubkey>): (keys: set<Pubkey>)
    requires slot in db.cache
  {
    if mode.Cleans(slot) then db.cache[slot].Keys * written else {}
  }

  predicate Reclaims(db: Accounts, slot: Slot, mode: Mode, stored: set<Pubkey>, v: Version)
    requires v in db.index
  {
    mode.markObsolete && mode.Cleans(slot) && v.key in stored && v.slot < slot && db.index[v].InStorage?
  }

  /** What flushing `slot` does, given the pubkeys already written by newer slots of the same call. */
  function FlushSlot(db: Accounts, slot: Slot, mode: Mode, written: set<Pubkey>): (db': Accounts)
    requires slot in db.cache
  {
    var outdated := Outdates(db, slot, mode, written);
    var accounts := db.cache[slot] - outdated;
    var kept := KeptIndex(db, slot, mode, outdated, accounts.Keys);
    var dead := DeadSlots(db, kept, slot, accounts.Keys, mode);
    Accounts(
      db.cache - {slot},
      kept,
      (if accounts == map[] then db.storage else db.storage[slot := accounts]) - dead,
      db.roots - dead - (if accounts == map[] then {slot} else {}))
  }

  /** The index without the outdated versions of the slot and without the reclaimed older ones. */
  function KeptIndex(db: Accounts, slot: Slot, mode: Mode, outdated: set<Pubkey>,
                     stored: set<Pubkey>): (index: map<Version, Place>) {
    map v | v in db.index && !(v.slot == slot && v.key in outdated) && !Reclaims(db, slot, mode, stored, v) ::
      if v.slot == slot then InStorage else db.index[v]
  }

  function OutdatedVersions(slot: Slot, keys: set<Pubkey>): (vs: set<Version>) {
    set k | k in keys :: Version(k, slot)
  }

  /** The older slots that lost an index entry and have none left. */
  function DeadSlots(db: Accounts, kept: map<Version, Place>, slot: Slot, stored: set<Pubkey>,
                     mode: Mode): (slots: set<Slot>) {
    set v | v in db.index && Reclaims(db, slot, mode, stored, v)
      && (forall w :: w in kept ==> w.slot != v.slot) :: v.slot
  }

  function NowWritten(db: Accounts, slot: Slot, mode: Mode, written: set<Pubkey>): (keys: set<Pubkey>)
    requires slot in db.cache
  {
    if mode.Cleans(slot) then written + db.cache[slot].Keys else written
  }

  // ----- All the slots flushed by one call -----

  /** A newer slot of the call, one that cleans, holds the same pubkey. */
  ghost predicate Outdated(before: Accounts, flushed: set<Slot>, mode: Mode, v: Version) {
    exists newer :: newer in flushed && v.slot < newer && mode.Cleans(newer) && newer in before.cache
      && v.key in before.cache[newer]
  }

  ghost predicate Removed(before: Accounts, flushed: set<Slot>, mode: Mode, v: Version)
    requires v in before.index
  {
    Outdated(before, flushed, mode, v) && (v.slot in flushed || (mode.markObsolete && before.index[v].InStorage?))
  }

  ghost predicate HasEntry(db: Accounts, s: Slot) {
    exists v :: v in db.index && v.slot == s
  }

  /** The slot lost all its index entries to the call. */
  ghost predicate Emptied(before: Accounts, after: Accounts, s: Slot) {
    HasEntry(before, s) && !HasEntry(after, s)
  }

  ghost predicate CacheAfter(before: Accounts, after: Accounts, flushed: set<Slot>) {
    && (forall s :: s in after.cache <==> s in before.cache && s !in flushed)
    && (forall s :: s in after.cache ==> after.cache[s] == before.cache[s])
  }

  ghost predicate IndexAfter(before: Accounts, after: Accounts, flushed: set<Slot>, mode: Mode) {
    && (forall v :: v in after.index <==> v in before.index && !Removed(before, flushed, mode, v))
    && (forall v :: v in after.index ==> after.index[v] == if v.slot in flushed then InStorage else before.index[v])
  }

  /** The storage of a flushed slot: the cached accounts whose index entry stays, or none at all. */
  ghost predicate FlushedStorage(before: Accounts, after: Accounts, s: Slot)
    requires s in before.cache
  {
    && (s in after.storage <==> HasEntry(after, s))
    && (s in after.storage ==>
         && (forall k :: k in after.storage[s] <==> k in before.cache[s] && Version(k, s) in after.index)
         && (forall k :: k in after.storage[s] && k in before.cache[s] ==> after.storage[s][k] == before.cache[s][k]))
  }

  /** The storage of any other slot: unchanged, unless the slot lost all its index entries. */
  ghost predicate OtherStorage(before: Accounts, after: Accounts, s: Slot) {
    && (s in after.storage <==> s in before.storage && !Emptied(before, after, s))
    && (s in after.storage && s in before.storage ==> after.storage[s] == before.storage[s])
  }

  ghost predicate StorageAfter(before: Accounts, after: Accounts, flushed: set<Slot>) {
    && (forall s :: s in flushed && s in before.cache ==> FlushedStorage(before, after, s))
    && (forall s: Slot :: s !in flushed ==> OtherStorage(before, after, s))
  }

  ghost predicate RootsAfter(before: Accounts, after: Accounts, flushed: set<Slot>) {
    forall r :: r in after.roots <==>
      r in before.roots && (if r in flushed then HasEntry(after, r) else !Emptied(before, after, r))
  }

  /** The state after a call that flushed `flushed`, in terms of the state before it. */
  ghost predicate Flushed(before: Accounts, after: Accounts, flushed: set<Slot>, mode: Mode) {
    && flushed <= before.cache.Keys
    && CacheAfter(before, after, flushed)
    && IndexAfter(before, after, flushed, mode)
    && StorageAfter(before, after, flushed)
    && RootsAfter(before, after, flushed)
  }

  ghost predicate IsWritten(before: Accounts, flushed: set<Slot>, mode: Mode, written: set<Pubkey>) {
    forall k :: k in written <==>
      exists s :: s in flushed && mode.Cleans(s) && s in before.cache && k in before.cache[s]
  }

  lemma NothingFlushed(db: Accounts, mode: Mode)
    ensures Flushed(db, db, {}, mode) && IsWritten(db, {}, mode, {})
  {
  }

  /** What is outdated after one more, older slot. */
  lemma OutdatedGrows(before: Accounts, flushed: set<Slot>, mode: Mode, slot: Slot, v: Version)
    requires slot in before.cache
    ensures Outdated(before, flushed + {slot}, mode, v) <==>
            Outdated(before, flushed, mode, v) || (v.slot < slot && mode.Cleans(slot) && v.key in before.cache[slot])
  {
    if Outdated(before, flushed, mode, v) {
      var newer: Slot :| newer in flushed && v.slot < newer && mode.Cleans(newer) && newer in before.cache
        && v.key in before.cache[newer];
      assert newer in flushed + {slot};
    }
    if v.slot < slot && mode.Cleans(slot) && v.key in before.cache[slot] {
      assert slot in flushed + {slot};
    }
  }

  /** For the next older slot, outdated means written. */
  lemma OutdatedIsWritten(before: Accounts, flushed: set<Slot>, mode: Mode, written: set<Pubkey>, slot: Slot, k: Pubkey)
    requires IsWritten(before, flushed, mode, written) && forall s :: s in flushed ==> slot < s
    ensures Outdated(before, flushed, mode, Version(k, slot)) <==> k in written
    ensures k in written ==> mode.Cleans(slot)
  {
    if k in written {
      var s: Slot :| s in flushed && mode.Cleans(s) && s in before.cache && k in before.cache[s];
      assert slot < s;
    }
  }

  lemma WrittenGrows(before: Accounts, db: Accounts, flushed: set<Slot>, mode: Mode, written: set<Pubkey>, slot: Slot)
    requires IsWritten(before, flushed, mode, written) && CacheAfter(before, db, flushed) && slot in db.cache
    ensures IsWritten(before, flushed + {slot}, mode, NowWritten(db, slot, mode, written))
  {
    forall k ensures k in NowWritten(db, slot, mode, written) <==>
                     exists s :: s in flushed + {slot} && mode.Cleans(s) && s in before.cache && k in before.cache[s]
    {
      if k in written {
        var s: Slot :| s in flushed && mode.Cleans(s) && s in before.cache && k in before.cache[s];
        assert s in flushed + {slot};
      }
      if mode.Cleans(slot) && k in db.cache[slot] { assert slot in flushed + {slot}; }
    }
  }

  /** The situation before flushing the next older slot of a call. */
  ghost predicate Midway(before: Accounts, db: Accounts, flushed: set<Slot>, mode: Mode, written: set<Pubkey>,
                         slot: Slot) {
    && Consistent(before) && Consistent(db)
    && Flushed(before, db, flushed, mode) && IsWritten(before, flushed, mode, written)
    && slot in db.cache && (forall s :: s in flushed ==> slot < s)
  }

  /** The index entries that flushing one slot keeps. */
  lemma KeptByFlush(db: Accounts, slot: Slot, mode: Mode, written: set<Pubkey>, v: Version)
    requires slot in db.cache
    ensures v in FlushSlot(db, slot, mode, written).index <==>
            && v in db.index
            && !(v.slot == slot && mode.Cleans(slot) && v.key in db.cache[slot] && v.key in written)
            && !(mode.markObsolete && mode.Cleans(slot) && v.key in db.cache[slot] && v.key !in written && v.slot < slot
               && db.index[v].InStorage?)
  {
  }

  lemma StepIndexAt(before: Accounts, db: Accounts, flushed: set<Slot>, mode: Mode, written: set<Pubkey>, slot: Slot,
                    v: Version)
    requires IsWritten(before, flushed, mode, written) && forall s :: s in flushed ==> slot < s
    requires slot in before.cache && slot in db.cache && db.cache[slot] == before.cache[slot]
    requires v in db.index <==> v in before.index && !Removed(before, flushed, mode, v)
    requires v in db.index ==> db.index[v] == if v.slot in flushed then InStorage else before.index[v]
    requires v in before.index && v.slot == slot ==> v.key in before.cache[slot]
    ensures v in FlushSlot(db, slot, mode, written).index <==>
            v in before.index && !Removed(before, flushed + {slot}, mode, v)
  {
    KeptByFlush(db, slot, mode, written, v);
    OutdatedGrows(before, flushed, mode, slot, v);
    OutdatedIsWritten(before, flushed, mode, written, slot, v.key);
    if v.slot < slot && mode.Cleans(slot) && v.key in written {
      WrittenIsNewer(before, flushed, mode, written, slot, v);
    }
  }

  /** An older version of a written pubkey is outdated already. */
  lemma WrittenIsNewer(before: Accounts, flushed: set<Slot>, mode: Mode, written: set<Pubkey>, slot: Slot, v: Version)
    requires IsWritten(before, flushed, mode, written) && (forall s :: s in flushed ==> slot < s) && v.slot < slot
    requires v.key in written
    ensures Outdated(before, flushed, mode, v)
  {
    var s: Slot :| s in flushed && mode.Cleans(s) && s in before.cache && v.key in before.cache[s];
  }

  lemma StepIndex(before: Accounts, db: Accounts, flushed: set<Slot>, mode: Mode, written: set<Pubkey>, slot: Slot)
    requires Midway(before, db, flushed, mode, written, slot)
    ensures IndexAfter(before, FlushSlot(db, slot, mode, written), flushed + {slot}, mode)
  {
    var db' := FlushSlot(db, slot, mode, written);
    forall v ensures v in db'.index <==> v in before.index && !Removed(before, flushed + {slot}, mode, v) {
      StepIndexAt(before, db, flushed, mode, written, slot, v);
    }
  }

  function FlushedAccounts(db: Accounts, slot: Slot, mode: Mode, written: set<Pubkey>): (accounts: map<Pubkey, Account>)
    requires slot in db.cache
  {
    db.cache[slot] - Outdates(db, slot, mode, written)
  }

  function SlotsThatDie(db: Accounts, slot: Slot, mode: Mode, written: set<Pubkey>): (slots: set<Slot>)
    requires slot in db.cache
  {
    DeadSlots(db, FlushSlot(db, slot, mode, written).index, slot, FlushedAccounts(db, slot, mode, written).Keys, mode)
  }

  /** The slots that die are the older ones that flushing leaves without an index entry. */
  lemma DeadIsEmptied(db: Accounts, slot: Slot, mode: Mode, written: set<Pubkey>, t: Slot)
    requires slot in db.cache
    ensures t in SlotsThatDie(db, slot, mode, written) ==> t < slot
    ensures t != slot ==>
            (t in SlotsThatDie(db, slot, mode, written) <==> Emptied(db, FlushSlot(db, slot, mode, written), t))
  {
    var db' := FlushSlot(db, slot, mode, written);
    if t != slot && Emptied(db, db', t) {
      var v :| v in db.index && v.slot == t;
      assert v !in db'.index;
      KeptByFlush(db, slot, mode, written, v);
      assert Reclaims(db, slot, mode, FlushedAccounts(db, slot, mode, written).Keys, v);
    }
  }

  /** A newer slot keeps all its entries, and the flushed slot has one for every account it stored. */
  lemma EntriesAfter(db: Accounts, slot: Slot, mode: Mode, written: set<Pubkey>)
    requires Consistent(db) && slot in db.cache
    ensures forall k :: Version(k, slot) in FlushSlot(db, slot, mode, written).index <==>
            k in FlushedAccounts(db, slot, mode, written)
    ensures HasEntry(FlushSlot(db, slot, mode, written), slot) <==> FlushedAccounts(db, slot, mode, written) != map[]
    ensures forall v: Version :: v.slot > slot ==> (v in db.index <==> v in FlushSlot(db, slot, mode, written).index)
  {
    var db', accounts := FlushSlot(db, slot, mode, written), FlushedAccounts(db, slot, mode, written);
    forall v: Version ensures v.slot > slot ==> (v in db.index <==> v in db'.index) {
      KeptByFlush(db, slot, mode, written, v);
    }
    forall k ensures Version(k, slot) in db'.index <==> k in accounts {
      KeptByFlush(db, slot, mode, written, Version(k, slot));
    }
    if accounts != map[] {
      var k :| k in accounts;
      assert Version(k, slot) in db'.index;
    }
  }

  lemma NewerEntries(db: Accounts, slot: Slot, mode: Mode, written: set<Pubkey>, t: Slot)
    requires Consistent(db) && slot in db.cache && slot < t
    ensures HasEntry(db, t) <==> HasEntry(FlushSlot(db, slot, mode, written), t)
  {
    EntriesAfter(db, slot, mode, written);
    var db' := FlushSlot(db, slot, mode, written);
    if HasEntry(db, t) { var v :| v in db.index && v.slot == t; assert v in db'.index; }
    if HasEntry(db', t) { var v :| v in db'.index && v.slot == t; assert v in db.index; }
  }

  /** Emptied since the start of the call, after one more slot. */
  lemma EmptiedGrows(before: Accounts, db: Accounts, slot: Slot, mode: Mode, written: set<Pubkey>, t: Slot)
    requires slot in db.cache && t != slot && db.index.Keys <= before.index.Keys
    ensures Emptied(before, FlushSlot(db, slot, mode, written), t) <==>
            Emptied(before, db, t) || t in SlotsThatDie(db, slot, mode, written)
  {
    var db' := FlushSlot(db, slot, mode, written);
    DeadIsEmptied(db, slot, mode, written, t);
    assert db'.index.Keys <= db.index.Keys;
    if HasEntry(db, t) { var v :| v in db.index && v.slot == t; assert v in before.index; }
    if HasEntry(db', t) { var v :| v in db'.index && v.slot == t; assert v in db.index; }
  }

  /** How the index entries of whole slots change when `slot` is flushed and `dead` dies. */
  ghost predicate EntriesStep(before: Accounts, db: Accounts, db': Accounts, flushed: set<Slot>, slot: Slot,
                              accounts: map<Pubkey, Account>, dead: set<Slot>) {
    && (forall s :: s in flushed ==> slot < s && (HasEntry(db', s) <==> HasEntry(db, s)))
    && (forall s, k :: s in flushed ==> (Version(k, s) in db'.index <==> Version(k, s) in db.index))
    && (forall s :: s in dead ==> s < slot)
    && (forall s: Slot :: s !in flushed && s != slot ==>
       (Emptied(before, db', s) <==> Emptied(before, db, s) || s in dead))
    && (HasEntry(db', slot) <==> accounts != map[])
    && (forall k :: Version(k, slot) in db'.index <==> k in accounts)
  }

  lemma EntriesStepHolds(before: Accounts, db: Accounts, flushed: set<Slot>, mode: Mode, written: set<Pubkey>,
                         slot: Slot)
    requires Consistent(db) && slot in db.cache && db.index.Keys <= before.index.Keys
    requires forall s :: s in flushed ==> slot < s
    ensures EntriesStep(before, db, FlushSlot(db, slot, mode, written), flushed, slot,
                        FlushedAccounts(db, slot, mode, written), SlotsThatDie(db, slot, mode, written))
  {
    var db', dead := FlushSlot(db, slot, mode, written), SlotsThatDie(db, slot, mode, written);
    EntriesAfter(db, slot, mode, written);
    forall s | s in flushed ensures HasEntry(db', s) <==> HasEntry(db, s) { NewerEntries(db, slot, mode, written, s); }
    forall s | s in dead ensures s < slot { DeadIsEmptied(db, slot, mode, written, s); }
    forall s: Slot | s !in flushed && s != slot
      ensures Emptied(before, db', s) <==> Emptied(before, db, s) || s in dead
    {
      EmptiedGrows(before, db, slot, mode, written, s);
    }
  }

  lemma StepStorage(before: Accounts, db: Accounts, db': Accounts, flushed: set<Slot>, slot: Slot,
                    accounts: map<Pubkey, Account>, dead: set<Slot>)
    requires EntriesStep(before, db, db', flushed, slot, accounts, dead) && StorageAfter(before, db, flushed)
    requires slot in before.cache && slot !in db.storage
    requires accounts.Keys <= before.cache[slot].Keys
    requires forall k :: k in accounts ==> accounts[k] == before.cache[slot][k]
    requires db'.storage == (if accounts == map[] then db.storage else db.storage[slot := accounts]) - dead
    ensures StorageAfter(before, db', flushed + {slot})
  {
    forall s | s in flushed && s in before.cache ensures FlushedStorage(before, db', s) {
      assert FlushedStorage(before, db, s);
    }
    forall s: Slot | s !in flushed && s != slot ensures OtherStorage(before, db', s) {
      assert OtherStorage(before, db, s);
    }
    assert FlushedStorage(before, db', slot);
  }

  lemma StepRoots(before: Accounts, db: Accounts, db': Accounts, flushed: set<Slot>, slot: Slot,
                  accounts: map<Pubkey, Account>, dead: set<Slot>)
    requires EntriesStep(before, db, db', flushed, slot, accounts, dead) && RootsAfter(before, db, flushed)
    requires slot !in flushed && !Emptied(before, db, slot)
    requires db'.roots == db.roots - dead - (if accounts == map[] then {slot} else {})
    ensures RootsAfter(before, db', flushed + {slot})
  {
  }

  /** A cached slot loses no entry before its own turn. */
  lemma CachedKeepsEntries(before: Accounts, db: Accounts, flushed: set<Slot>, mode: Mode, slot: Slot)
    requires Consistent(before) && IndexAfter(before, db, flushed, mode) && slot in before.cache && slot !in flushed
    ensures !Emptied(before, db, slot)
  {
    if HasEntry(before, slot) {
      var v :| v in before.index && v.slot == slot;
      assert v in db.index;
    }
  }

  lemma StepConsistent(db: Accounts, slot: Slot, mode: Mode, written: set<Pubkey>)
    requires Consistent(db) && slot in db.cache
    ensures Consistent(FlushSlot(db, slot, mode, written))
  {
    var db' := FlushSlot(db, slot, mode, written);
    forall s, k | s in db'.cache && k in db'.cache[s] ensures Version(k, s) in db'.index {
      KeptByFlush(db, slot, mode, written, Version(k, s));
    }
    forall v | v in db'.index && v.slot !in db'.cache
      ensures db'.index[v].InStorage? && v.slot in db'.storage && v.key in db'.storage[v.slot]
    {
      StillStored(db, slot, mode, written, v);
    }
  }

  lemma StillStored(db: Accounts, slot: Slot, mode: Mode, written: set<Pubkey>, v: Version)
    requires Consistent(db) && slot in db.cache && v in FlushSlot(db, slot, mode, written).index
    requires v.slot !in FlushSlot(db, slot, mode, written).cache
    ensures var db' := FlushSlot(db, slot, mode, written);
            db'.index[v].InStorage? && v.slot in db'.storage && v.key in db'.storage[v.slot]
  {
    EntriesAfter(db, slot, mode, written);
    DeadIsEmptied(db, slot, mode, written, v.slot);
  }

  lemma StepFlushed(before: Accounts, db: Accounts, flushed: set<Slot>, mode: Mode, written: set<Pubkey>, slot: Slot)
    requires Midway(before, db, flushed, mode, written, slot)
    ensures Flushed(before, FlushSlot(db, slot, mode, written), flushed + {slot}, mode)
    ensures Consistent(FlushSlot(db, slot, mode, written))
    ensures IsWritten(before, flushed + {slot}, mode, NowWritten(db, slot, mode, written))
  {
    var db', accounts := FlushSlot(db, slot, mode, written), FlushedAccounts(db, slot, mode, written);
    var dead := SlotsThatDie(db, slot, mode, written);
    StepIndex(before, db, flushed, mode, written, slot);
    EntriesStepHolds(before, db, flushed, mode, written, slot);
    StepStorage(before, db, db', flushed, slot, accounts, dead);
    CachedKeepsEntries(before, db, flushed, mode, slot);
    StepRoots(before, db, db', flushed, slot, accounts, dead);
    StepConsistent(db, slot, mode, written);
    WrittenGrows(before, db, flushed, mode, written, slot);
  }

  // ----- What readers of rooted versions see -----

  /** `s` is the newest root at or below `bound` with a version of `k`. */
  ghost predicate Latest(db: Accounts, k: Pubkey, bound: Slot, s: Slot) {
    && s in db.roots && s <= bound && Version(k, s) in db.index
    && (forall t :: t in db.roots && t <= bound && Version(k, t) in db.index ==> t <= s)
  }

  /** A flushed root above `bound` cleans away the versions of `k` that a reader at `bound` needs. */
  ghost predicate CleanedFromAbove(before: Accounts, flushed: set<Slot>, mode: Mode, k: Pubkey, bound: Slot, s: Slot)
    requires Version(k, s) in before.index
  {
    && (s in flushed || (mode.markObsolete && before.index[Version(k, s)].InStorage?))
    && exists newer ::
         newer in flushed && bound < newer && mode.Cleans(newer) && newer in before.cache && k in before.cache[newer]
  }

  /** For any bound at all, exactly when the newest rooted version at or below it survives the call. */
  lemma LatestSurvivesIff(before: Accounts, after: Accounts, flushed: set<Slot>, mode: Mode, k: Pubkey, bound: Slot,
                          s: Slot)
    requires Consistent(before) && Flushed(before, after, flushed, mode) && flushed <= before.roots
    requires Latest(before, k, bound, s)
    ensures Latest(after, k, bound, s) <==> !CleanedFromAbove(before, flushed, mode, k, bound, s)
  {
    var v := Version(k, s);
    if Outdated(before, flushed, mode, v) {
      var newer: Slot :| newer in flushed && s < newer && mode.Cleans(newer) && newer in before.cache
        && k in before.cache[newer];
      assert Version(k, newer) in before.index;
      assert bound < newer;
    }
    assert v in after.index ==> HasEntry(after, s);
  }

  /** The state after a call that flushes two slots, the higher first. */
  function FlushTwo(db: Accounts, high: Slot, low: Slot, mode: Mode): (after: Accounts)
    requires high in db.cache && low in db.cache && low < high
  {
    FlushSlot(FlushSlot(db, high, mode, {}), low, mode, NowWritten(db, high, mode, {}))
  }

  lemma TwoFlushed(db: Accounts, high: Slot, low: Slot, mode: Mode)
    requires Consistent(db) && high in db.cache && low in db.cache && low < high
    ensures Flushed(db, FlushTwo(db, high, low, mode), {high, low}, mode)
  {
    NothingFlushed(db, mode);
    StepFlushed(db, db, {}, mode, {}, high);
    assert {} + {high} == {high};
    StepFlushed(db, FlushSlot(db, high, mode, {}), {high}, mode, NowWritten(db, high, mode, {}), low);
    assert {high} + {low} == {high, low};
  }

  /** Pubkey 1 cached in roots 3 and 7. */
  function TwiceCached(a: Account, b: Account): (db: Accounts) {
    Accounts(map[3 := map[1 := a], 7 := map[1 := b]], map[Version(1, 3) := InCache, Version(1, 7) := InCache], map[],
             {3, 7})
  }

  lemma TwiceCachedAtFive(a: Account, b: Account)
    ensures var db := TwiceCached(a, b);
            Consistent(db) && forall s :: Latest(db, 1, 5, s) <==> s == 3
  {
  }

  /** The call gives no older version to a reader that loses the newest one it had. */
  lemma NoOlderLatest(before: Accounts, after: Accounts, flushed: set<Slot>, mode: Mode, k: Pubkey, bound: Slot,
                      s: Slot, t: Slot)
    requires Flushed(before, after, flushed, mode) && Latest(before, k, bound, s) && Latest(after, k, bound, t)
    ensures t in before.roots && Version(k, t) in before.index && t <= s
  {
  }

  /** A call that may clean up to root 7 leaves a reader at 5, below that root, with no version of the pubkey at all. */
  lemma BelowMaxCleanRootIsLost(a: Account, b: Account)
    ensures var db := TwiceCached(a, b);
            var after := FlushTwo(db, 7, 3, Mode(true, Some(7), false));
            Latest(db, 1, 5, 3) && forall s :: !Latest(after, 1, 5, s)
  {
    var db, mode := TwiceCached(a, b), Mode(true, Some(7), false);
    var after := FlushTwo(db, 7, 3, mode);
    TwiceCachedAtFive(a, b);
    TwoFlushed(db, 7, 3, mode);
    LatestSurvivesIff(db, after, {7, 3}, mode, 1, 5, 3);
    assert CleanedFromAbove(db, {7, 3}, mode, 1, 5, 3);
    forall s ensures !Latest(after, 1, 5, s) {
      if Latest(after, 1, 5, s) { NoOlderLatest(db, after, {7, 3}, mode, 1, 5, 3, s); }
    }
  }

  /** Every cleaning root of the call is at or below `bound`. */
  ghost predicate CoversCleaning(flushed: set<Slot>, mode: Mode, bound: Slot) {
    forall f :: f in flushed && mode.Cleans(f) ==> f <= bound
  }

  /** A bound at or above the max clean root covers the cleaning of any call. */
  lemma MaxCleanRootCovers(flushed: set<Slot>, mode: Mode, bound: Slot)
    requires mode.maxCleanRoot.Some? && mode.maxCleanRoot.value <= bound
    ensures CoversCleaning(flushed, mode, bound)
  {
  }

  /** At such a bound the newest rooted version of every pubkey is the same slot and the same account as before. */
  lemma NewestRootedUnchanged(before: Accounts, after: Accounts, flushed: set<Slot>, mode: Mode, k: Pubkey, bound: Slot,
                              s: Slot)
    requires Consistent(before) && Consistent(after) && Flushed(before, after, flushed, mode)
    requires flushed <= before.roots && CoversCleaning(flushed, mode, bound)
    ensures Latest(before, k, bound, s) <==> Latest(after, k, bound, s)
    ensures Latest(before, k, bound, s) ==> Stored(after, Version(k, s)) == Stored(before, Version(k, s))
  {
    if Latest(before, k, bound, s) {
      LatestStays(before, after, flushed, mode, k, bound, s);
      SameAccount(before, after, flushed, mode, Version(k, s));
    }
    if Latest(after, k, bound, s) {
      assert Version(k, s) in before.index && s in before.roots;
      var top := LatestExists(before, k, bound, s);
      LatestStays(before, after, flushed, mode, k, bound, top);
    }
  }

  lemma LatestStays(before: Accounts, after: Accounts, flushed: set<Slot>, mode: Mode, k: Pubkey, bound: Slot, s: Slot)
    requires Consistent(before) && Flushed(before, after, flushed, mode) && flushed <= before.roots
    requires CoversCleaning(flushed, mode, bound) && Latest(before, k, bound, s)
    ensures Latest(after, k, bound, s)
  {
    LatestSurvivesIff(before, after, flushed, mode, k, bound, s);
  }

  lemma LatestExists(db: Accounts, k: Pubkey, bound: Slot, s: Slot) returns (top: Slot)
    requires s in db.roots && s <= bound && Version(k, s) in db.index
    ensures Latest(db, k, bound, top)
  {
    var rooted := set t | t in db.roots && t <= bound && Version(k, t) in db.index;
    assert s in rooted;
    top := MaxSlot(rooted);
    forall t | t in db.roots && t <= bound && Version(k, t) in db.index ensures t <= top { assert t in rooted; }
  }

  lemma SameAccount(before: Accounts, after: Accounts, flushed: set<Slot>, mode: Mode, v: Version)
    requires Consistent(before) && Consistent(after) && Flushed(before, after, flushed, mode)
    requires v in after.index
    ensures Stored(after, v) == Stored(before, v)
  {
    if v.slot in flushed {
      assert FlushedStorage(before, after, v.slot);
    } else {
      assert OtherStorage(before, after, v.slot);
    }
  }

  /** Among the flushed slots that clean, at most one stores a version of any pubkey. */
  lemma OneVersionStored(before: Accounts, after: Accounts, flushed: set<Slot>, mode: Mode, k: Pubkey, s: Slot, t: Slot)
    requires Flushed(before, after, flushed, mode)
    requires s in flushed && t in flushed && mode.Cleans(s) && mode.Cleans(t)
    requires s in after.storage && k in after.storage[s] && t in after.storage && k in after.storage[t]
    ensures s == t
  {
    assert FlushedStorage(before, after, s) && FlushedStorage(before, after, t);
    assert s < t ==> Outdated(before, flushed, mode, Version(k, s));
    assert t < s ==> Outdated(before, flushed, mode, Version(k, t));
  }
}
