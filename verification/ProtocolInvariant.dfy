/** Every step of the storage protocol keeps the invariant, for any interleaving of jobs. */
module ProtocolInvariant {
  import opened Types
  import opened StorageProtocol

  // ----- Frames: what a step on one slot leaves alone -----

  ghost predicate FilesGrow(db: Db, db': Db) {
    && db.files.Keys <= db'.files.Keys
    && (forall id, offset :: id in db.files && offset in db.files[id] ==>
         offset in db'.files[id] && db'.files[id][offset] == db.files[id][offset])
  }

  ghost predicate SameAt<V>(m: map<Slot, V>, m': map<Slot, V>, t: Slot) {
    (t in m <==> t in m') && (t in m ==> m'[t] == m[t])
  }

  ghost predicate SameFor<V>(m: map<Version, V>, m': map<Version, V>, v: Version) {
    (v in m <==> v in m') && (v in m ==> m'[v] == m[v])
  }

  ghost predicate SameSlot(db: Db, db': Db, t: Slot) {
    && SameAt(db.jobs, db'.jobs, t)
    && SameAt(db.cache, db'.cache, t)
    && SameAt(db.storage, db'.storage, t)
    && SameAt(db.shrinking, db'.shrinking, t)
    && (t in db.frozen <==> t in db'.frozen)
    && (t in db.roots <==> t in db'.roots)
  }

  ghost predicate OnlySlot(db: Db, db': Db, s: Slot) {
    && (forall t: Slot :: t != s ==> SameSlot(db, db', t))
    && (forall v: Version :: v.slot != s ==> SameFor(db.index, db'.index, v) && SameFor(db.logical, db'.logical, v))
  }

  /** The step keeps who is superseded and who is the oldest rooted version. */
  ghost predicate KeepsOrder(db: Db, db': Db) {
    && (forall k, t :: t in db.roots && Superseded(db, k, t) && Version(k, t) in db'.index ==> Superseded(db', k, t))
    && (forall k, t :: t in db.roots && OldestRooted(db, k, t) ==> OldestRooted(db', k, t))
  }

  lemma OtherSlotStays(db: Db, db': Db, s: Slot, t: Slot)
    requires SlotOk(db, t) && t != s
    requires OnlySlot(db, db', s) && KeepsOrder(db, db') && FilesGrow(db, db')
    ensures SlotOk(db', t)
  {
    assert SameSlot(db, db', t);
    assert forall k :: SameFor(db.index, db'.index, Version(k, t)) && SameFor(db.logical, db'.logical, Version(k, t));
    if t in db.jobs { OtherJobStays(db, db', s, t); }
  }

  lemma OtherJobStays(db: Db, db': Db, s: Slot, t: Slot)
    requires t in db.jobs && t in db'.jobs && db'.jobs[t] == db.jobs[t] && JobOk(db, t, db.jobs[t]) && t != s
    requires OnlySlot(db, db', s) && KeepsOrder(db, db') && FilesGrow(db, db')
    ensures JobOk(db', t, db'.jobs[t])
  {
    assert SameSlot(db, db', t);
    match db.jobs[t]
    case Purging(superseded, kept) =>
      forall k | k in superseded + kept ensures Version(k, t) in db'.index {
        assert SameFor(db.index, db'.index, Version(k, t));
      }
    case Writing(work, id, todo, written, doomed) =>
      forall k | k in todo + written.Keys + doomed ensures Version(k, t) in db'.index {
        assert SameFor(db.index, db'.index, Version(k, t));
      }
      forall k | k in written ensures Holds(db', id, written[k], Version(k, t)) {
        OtherHolds(db, db', s, id, written[k], Version(k, t));
      }
      forall k | k in doomed ensures Erasable(db', k, t) {
        assert SameFor(db.logical, db'.logical, Version(k, t)) && Erasable(db, k, t);
      }
    case Indexing(work, id, pending, doomed) =>
      forall k | k in pending.Keys + doomed ensures Version(k, t) in db'.index {
        assert SameFor(db.index, db'.index, Version(k, t));
      }
      forall k | k in pending ensures Holds(db', id, pending[k], Version(k, t)) {
        OtherHolds(db, db', s, id, pending[k], Version(k, t));
      }
      forall k | k in doomed ensures Erasable(db', k, t) {
        assert SameFor(db.logical, db'.logical, Version(k, t)) && Erasable(db, k, t);
      }
    case Replaced(id) =>
  }

  lemma OtherHolds(db: Db, db': Db, s: Slot, id: StoreId, offset: Offset, v: Version)
    requires Holds(db, id, offset, v) && v.slot != s
    requires OnlySlot(db, db', s) && FilesGrow(db, db')
    ensures Holds(db', id, offset, v)
  {
    assert SameFor(db.logical, db'.logical, v);
  }

  lemma OtherVersionStays(db: Db, db': Db, s: Slot, v: Version)
    requires v in db.index && VersionOk(db, v) && v.slot != s
    requires OnlySlot(db, db', s) && FilesGrow(db, db')
    ensures v in db'.index && VersionOk(db', v)
  {
    assert SameSlot(db, db', v.slot);
    assert SameFor(db.index, db'.index, v) && SameFor(db.logical, db'.logical, v);
  }

  /** A step on slot `s` keeps the invariant if it keeps it at slot `s`. */
  lemma StepAt(db: Db, db': Db, s: Slot)
    requires Inv(db)
    requires OnlySlot(db, db', s) && KeepsOrder(db, db') && FilesGrow(db, db') && FilesOk(db')
    requires SlotOk(db', s)
    requires forall v :: v in db'.index && v.slot == s ==> VersionOk(db', v)
    requires forall v :: v in db'.logical && v.slot == s ==> CacheOk(db', v)
    requires s in db'.cache ==> forall k :: k in db'.cache[s] ==> Version(k, s) in db'.logical
    requires HistoryOk(db')
    ensures Inv(db')
  {
    forall t: Slot ensures SlotOk(db', t) {
      assert SlotOk(db, t);
      if t != s { OtherSlotStays(db, db', s, t); }
    }
    forall v | v in db'.index ensures VersionOk(db', v) {
      if v.slot != s {
        assert SameFor(db.index, db'.index, v);
        OtherVersionStays(db, db', s, v);
      }
    }
    CachesStay(db, db', s);
  }

  lemma CachesStay(db: Db, db': Db, s: Slot)
    requires CachesOk(db) && OnlySlot(db, db', s)
    requires forall v :: v in db'.logical && v.slot == s ==> CacheOk(db', v)
    requires s in db'.cache ==> forall k :: k in db'.cache[s] ==> Version(k, s) in db'.logical
    ensures CachesOk(db')
  {
    forall v | v in db'.logical ensures CacheOk(db', v) {
      if v.slot != s {
        assert SameFor(db.logical, db'.logical, v) && SameSlot(db, db', v.slot) && CacheOk(db, v);
      }
    }
    forall t, k | t in db'.cache && k in db'.cache[t] ensures Version(k, t) in db'.logical {
      if t != s {
        assert SameSlot(db, db', t) && SameFor(db.logical, db'.logical, Version(k, t));
      }
    }
  }

  // ----- Steps that take nothing out of the index -----

  ghost predicate Growing(db: Db, db': Db) {
    && db.roots <= db'.roots
    && (forall r, q :: r in db.roots && q in db'.roots && q !in db.roots ==> r < q)
    && db.index.Keys <= db'.index.Keys
    && (forall v :: v in db'.index && v.slot in db.roots ==> v in db.index)
    && (forall v :: v in db.logical && v.slot in db.roots ==> v in db'.logical && db'.logical[v] == db.logical[v])
  }

  lemma SupersededStays(db: Db, db': Db, k: Pubkey, s: Slot)
    requires Growing(db, db')
    requires Superseded(db, k, s)
    ensures Superseded(db', k, s)
  {
    var newer: Slot :| newer in db.roots && s < newer && Version(k, newer) in db.index;
    assert newer in db'.roots && Version(k, newer) in db'.index;
  }

  lemma OldestRootedStays(db: Db, db': Db, k: Pubkey, s: Slot)
    requires Growing(db, db')
    requires s in db.roots
    requires OldestRooted(db, k, s)
    ensures OldestRooted(db', k, s)
  {
    forall r | r in db'.roots && r < s ensures Version(k, r) !in db'.index {
      assert r in db.roots;
    }
  }

  lemma GrowingKeepsOrder(db: Db, db': Db)
    requires Growing(db, db')
    ensures KeepsOrder(db, db')
  {
    forall k, t | t in db.roots && Superseded(db, k, t) && Version(k, t) in db'.index ensures Superseded(db', k, t) {
      SupersededStays(db, db', k, t);
    }
    forall k, t | t in db.roots && OldestRooted(db, k, t) ensures OldestRooted(db', k, t) {
      OldestRootedStays(db, db', k, t);
    }
  }

  lemma GoneStays(db: Db, db': Db, v: Version)
    requires Growing(db, db')
    requires GoneOk(db, v)
    ensures GoneOk(db', v)
  {
    if Superseded(db, v.key, v.slot) {
      SupersededStays(db, db', v.key, v.slot);
    } else {
      var zero: Slot :| ErasedAt(db, v.key, zero) && v.slot <= zero;
      OldestRootedStays(db, db', v.key, zero);
      assert ErasedAt(db', v.key, zero);
    }
  }

  /** A growing step on `s` keeps the history, provided it does not freeze versions missing from the index. */
  lemma HistoryStays(db: Db, db': Db)
    requires HistoryOk(db) && Growing(db, db')
    requires forall v :: v in db'.logical && v.slot in db'.frozen && v !in db'.index ==>
             v in db.logical && v.slot in db.frozen
    ensures HistoryOk(db')
  {
    forall v | v in db'.logical && v.slot in db'.frozen && v !in db'.index ensures GoneOk(db', v) {
      GoneStays(db, db', v);
    }
  }

  // ----- The invariant at one slot -----

  ghost predicate Here(db: Db, s: Slot) {
    && SlotOk(db, s)
    && (forall v :: v in db.index && v.slot == s ==> VersionOk(db, v))
    && (forall v :: v in db.logical && v.slot == s ==> CacheOk(db, v))
    && (s in db.cache ==> forall k :: k in db.cache[s] ==> Version(k, s) in db.logical)
  }

  /** A step on slot `s` that takes nothing out of the index and does nothing outside its slot. */
  ghost predicate Local(db: Db, db': Db, s: Slot) {
    OnlySlot(db, db', s) && Growing(db, db') && FilesGrow(db, db') && FilesOk(db')
  }

  lemma LocalStepKeeps(db: Db, db': Db, s: Slot)
    requires Inv(db) && Local(db, db', s) && Here(db', s)
    requires forall v :: v in db'.logical && v.slot in db'.frozen && v !in db'.index ==>
             v in db.logical && v.slot in db.frozen
    ensures Inv(db')
  {
    GrowingKeepsOrder(db, db');
    HistoryStays(db, db');
    StepAt(db, db', s);
  }

  // ----- Writers and roots -----

  lemma WriteLocal(db: Db, s: Slot, k: Pubkey, account: Account)
    requires CanWrite(db, s) && FilesOk(db) && SlotOk(db, s)
    ensures Local(db, DoWrite(db, s, k, account), s)
  {
  }

  lemma WriteHere(db: Db, s: Slot, k: Pubkey, account: Account)
    requires CanWrite(db, s) && Here(db, s)
    ensures Here(DoWrite(db, s, k, account), s)
  {
    var db' := DoWrite(db, s, k, account);
    forall v | v in db'.index && v.slot == s ensures VersionOk(db', v) {
      assert VersionOk(db, v);
    }
    forall v | v in db'.logical && v.slot == s ensures CacheOk(db', v) {
      assert v in db.logical ==> CacheOk(db, v);
    }
  }

  lemma PublishLocal(db: Db, s: Slot, k: Pubkey)
    requires CanPublish(db, s, k) && FilesOk(db) && SlotOk(db, s)
    ensures Local(db, DoPublish(db, s, k), s)
  {
  }

  lemma PublishHere(db: Db, s: Slot, k: Pubkey)
    requires CanPublish(db, s, k) && Here(db, s)
    ensures Here(DoPublish(db, s, k), s)
  {
    var db' := DoPublish(db, s, k);
    forall v | v in db'.index && v.slot == s ensures VersionOk(db', v) {
      assert v in db.index ==> VersionOk(db, v);
    }
    forall v | v in db'.logical && v.slot == s ensures CacheOk(db', v) {
      assert CacheOk(db, v);
    }
  }

  lemma FreezeLocal(db: Db, s: Slot)
    requires CanFreeze(db, s) && FilesOk(db)
    ensures Local(db, DoFreeze(db, s), s)
  {
  }

  lemma FreezeHere(db: Db, s: Slot)
    requires CanFreeze(db, s) && Here(db, s)
    ensures Here(DoFreeze(db, s), s)
  {
    var db' := DoFreeze(db, s);
    forall v | v in db'.index && v.slot == s ensures VersionOk(db', v) {
      assert VersionOk(db, v);
    }
    forall v | v in db'.logical && v.slot == s ensures CacheOk(db', v) {
      assert CacheOk(db, v);
    }
  }

  lemma AddRootLocal(db: Db, s: Slot)
    requires CanAddRoot(db, s) && FilesOk(db)
    ensures Local(db, DoAddRoot(db, s), s)
  {
  }

  lemma AddRootHere(db: Db, s: Slot)
    requires CanAddRoot(db, s) && Here(db, s)
    requires KeepsOrder(db, DoAddRoot(db, s))
    ensures Here(DoAddRoot(db, s), s)
  {
    var db' := DoAddRoot(db, s);
    assert s in db.jobs ==> !db.jobs[s].Replaced?;
    forall v | v in db'.index && v.slot == s ensures VersionOk(db', v) {
      assert VersionOk(db, v);
    }
    forall v | v in db'.logical && v.slot == s ensures CacheOk(db', v) {
      assert CacheOk(db, v);
    }
  }

  // ----- Flush -----

  lemma FlushLocal(db: Db, s: Slot, outdated: set<Pubkey>)
    requires CanFlush(db, s, outdated) && FilesOk(db)
    ensures Local(db, DoFlush(db, s, outdated), s)
  {
  }

  lemma FlushHere(db: Db, s: Slot, outdated: set<Pubkey>)
    requires CanFlush(db, s, outdated) && Here(db, s)
    requires KeepsOrder(db, DoFlush(db, s, outdated))
    ensures Here(DoFlush(db, s, outdated), s)
  {
    var db' := DoFlush(db, s, outdated);
    forall v | v in db'.index && v.slot == s ensures VersionOk(db', v) {
      assert VersionOk(db, v);
      assert CacheOk(db, v);
    }
    forall v | v in db'.logical && v.slot == s ensures CacheOk(db', v) {
      assert CacheOk(db, v);
    }
  }

  lemma CreateLocal(db: Db, s: Slot)
    requires CanCreate(db, s) && FilesOk(db)
    ensures Local(db, DoCreate(db, s), s)
  {
    if db.jobs[s].kept == {} { CreateDeadLocal(db, s); } else { CreateAliveLocal(db, s); }
  }

  lemma CreateDeadLocal(db: Db, s: Slot)
    requires CanCreate(db, s) && FilesOk(db) && db.jobs[s].kept == {}
    ensures Local(db, DoCreate(db, s), s)
  {
  }

  lemma CreateAliveLocal(db: Db, s: Slot)
    requires CanCreate(db, s) && FilesOk(db) && db.jobs[s].kept != {}
    ensures Local(db, DoCreate(db, s), s)
  {
    assert db.nextId !in db.files;
  }

  lemma CreateHere(db: Db, s: Slot)
    requires CanCreate(db, s) && FilesOk(db) && Here(db, s)
    ensures Here(DoCreate(db, s), s)
  {
    var db' := DoCreate(db, s);
    assert db.jobs[s].kept != {} ==> db.nextId !in db.files;
    forall v | v in db'.index && v.slot == s ensures VersionOk(db', v) {
      assert VersionOk(db, v);
    }
    forall v | v in db'.logical && v.slot == s ensures CacheOk(db', v) {
      assert CacheOk(db, v);
    }
  }

  lemma DropCacheLocal(db: Db, s: Slot)
    requires CanDropCache(db, s) && FilesOk(db)
    ensures Local(db, DoDropCache(db, s), s)
  {
  }

  lemma DropCacheHere(db: Db, s: Slot)
    requires CanDropCache(db, s) && Here(db, s)
    ensures Here(DoDropCache(db, s), s)
  {
    var db' := DoDropCache(db, s);
    forall v | v in db'.index && v.slot == s ensures VersionOk(db', v) {
      assert VersionOk(db, v);
    }
    forall v | v in db'.logical && v.slot == s ensures CacheOk(db', v) {
      assert CacheOk(db, v);
    }
  }

  // ----- Copying and indexing, shared by flush and shrink -----

  lemma CopyLocal(db: Db, s: Slot, k: Pubkey, offset: Offset)
    requires CanCopy(db, s, k, offset) && FilesOk(db)
    ensures Local(db, DoCopy(db, s, k, offset), s)
  {
  }

  /** The account a job copies is the one logically stored there. */
  lemma CopiesLogical(db: Db, s: Slot, k: Pubkey, offset: Offset)
    requires CanCopy(db, s, k, offset) && Here(db, s)
    ensures Version(k, s) in db.logical
    ensures AccountToCopy(db, s, k, db.jobs[s].work) == db.logical[Version(k, s)]
  {
    assert VersionOk(db, Version(k, s));
    assert CacheOk(db, Version(k, s));
  }

  lemma CopyHere(db: Db, s: Slot, k: Pubkey, offset: Offset)
    requires CanCopy(db, s, k, offset) && Here(db, s)
    ensures Here(DoCopy(db, s, k, offset), s)
  {
    var db' := DoCopy(db, s, k, offset);
    var job := db.jobs[s];
    CopiesLogical(db, s, k, offset);
    forall x | x in db'.jobs[s].written ensures Holds(db', job.id, db'.jobs[s].written[x], Version(x, s)) {
      assert x != k ==> Holds(db, job.id, job.written[x], Version(x, s));
    }
    forall v | v in db'.index && v.slot == s ensures VersionOk(db', v) {
      assert VersionOk(db, v);
    }
    forall v | v in db'.logical && v.slot == s ensures CacheOk(db', v) {
      assert CacheOk(db, v);
    }
  }

  lemma BeginIndexingLocal(db: Db, s: Slot)
    requires CanBeginIndexing(db, s) && FilesOk(db)
    ensures Local(db, DoBeginIndexing(db, s), s)
  {
  }

  lemma BeginIndexingHere(db: Db, s: Slot)
    requires CanBeginIndexing(db, s) && Here(db, s)
    ensures Here(DoBeginIndexing(db, s), s)
  {
    var db' := DoBeginIndexing(db, s);
    forall v | v in db'.index && v.slot == s ensures VersionOk(db', v) {
      assert VersionOk(db, v);
    }
    forall v | v in db'.logical && v.slot == s ensures CacheOk(db', v) {
      assert CacheOk(db, v);
    }
  }

  lemma IndexLocal(db: Db, s: Slot, k: Pubkey)
    requires CanIndex(db, s, k) && FilesOk(db) && SlotOk(db, s)
    ensures Local(db, DoIndex(db, s, k), s)
  {
    assert Version(k, s) in db.index;
  }

  lemma IndexHere(db: Db, s: Slot, k: Pubkey)
    requires CanIndex(db, s, k) && Here(db, s)
    ensures Here(DoIndex(db, s, k), s)
  {
    var db' := DoIndex(db, s, k);
    var job := db.jobs[s];
    assert Holds(db, job.id, job.pending[k], Version(k, s)) && Version(k, s) in db.index;
    forall v | v in db'.index && v.slot == s ensures VersionOk(db', v) {
      assert VersionOk(db, v);
    }
    forall v | v in db'.logical && v.slot == s ensures CacheOk(db', v) {
      assert CacheOk(db, v);
    }
  }

  // ----- Shrink -----

  lemma ShrinkLocal(db: Db, s: Slot, zeroes: set<Pubkey>)
    requires CanShrink(db, s, zeroes) && FilesOk(db)
    ensures Local(db, DoShrink(db, s, zeroes), s)
  {
  }

  lemma ShrinkHere(db: Db, s: Slot, zeroes: set<Pubkey>)
    requires CanShrink(db, s, zeroes) && FilesOk(db) && Here(db, s)
    requires KeepsOrder(db, DoShrink(db, s, zeroes))
    ensures Here(DoShrink(db, s, zeroes), s)
  {
    var db' := DoShrink(db, s, zeroes);
    forall k | k in zeroes ensures Version(k, s) in db.index && Erasable(db', k, s) {
      assert Erasable(db, k, s);
    }
    forall v | v in db'.index && v.slot == s ensures VersionOk(db', v) {
      assert VersionOk(db, v);
    }
    forall v | v in db'.logical && v.slot == s ensures CacheOk(db', v) {
      assert CacheOk(db, v);
    }
  }

  lemma ReplaceLocal(db: Db, s: Slot)
    requires CanReplace(db, s) && FilesOk(db)
    ensures Local(db, DoReplace(db, s), s)
  {
  }

  lemma ReplaceHere(db: Db, s: Slot)
    requires CanReplace(db, s) && Here(db, s)
    ensures Here(DoReplace(db, s), s)
  {
    var db' := DoReplace(db, s);
    forall v | v in db'.index && v.slot == s ensures VersionOk(db', v) {
      assert VersionOk(db, v);
    }
    forall v | v in db'.logical && v.slot == s ensures CacheOk(db', v) {
      assert CacheOk(db, v);
    }
  }

  lemma UnregisterLocal(db: Db, s: Slot)
    requires CanUnregister(db, s) && FilesOk(db)
    ensures Local(db, DoUnregister(db, s), s)
  {
  }

  lemma UnregisterHere(db: Db, s: Slot)
    requires CanUnregister(db, s) && Here(db, s)
    ensures Here(DoUnregister(db, s), s)
  {
    var db' := DoUnregister(db, s);
    forall v | v in db'.index && v.slot == s ensures VersionOk(db', v) {
      assert VersionOk(db, v);
    }
    forall v | v in db'.logical && v.slot == s ensures CacheOk(db', v) {
      assert CacheOk(db, v);
    }
  }

  // ----- Steps that take one entry out of the index -----

  ghost predicate Removes(db: Db, db': Db, gone: Version) {
    && db'.index == db.index - {gone}
    && db'.logical == db.logical && db'.roots == db.roots && db'.frozen == db.frozen
    && db'.files == db.files && db'.nextId == db.nextId
    && OnlySlot(db, db', gone.slot)
  }

  lemma OldestRootedAfter(db: Db, db': Db, gone: Version)
    requires Removes(db, db', gone)
    ensures forall k, t :: OldestRooted(db, k, t) ==> OldestRooted(db', k, t)
  {
  }

  /** Purging a superseded version unsupersedes nothing. */
  lemma SupersededAfterPurge(db: Db, db': Db, gone: Version, k: Pubkey, t: Slot)
    requires Removes(db, db', gone) && Superseded(db, gone.key, gone.slot) && Superseded(db, k, t)
    ensures Superseded(db', k, t)
  {
    var newer: Slot :| newer in db.roots && t < newer && Version(k, newer) in db.index;
    if Version(k, newer) == gone {
      var newest: Slot :| newest in db.roots && gone.slot < newest && Version(gone.key, newest) in db.index;
      assert Version(k, newest) in db'.index;
    } else {
      assert Version(k, newer) in db'.index;
    }
  }

  lemma ErasedAfter(db: Db, db': Db, gone: Version, k: Pubkey, t: Slot)
    requires Removes(db, db', gone) && Erased(db, k, t)
    ensures Erased(db', k, t)
  {
    var zero: Slot :| ErasedAt(db, k, zero) && t <= zero;
    OldestRootedAfter(db, db', gone);
    assert ErasedAt(db', k, zero);
  }

  lemma PurgeHistory(db: Db, db': Db, gone: Version)
    requires HistoryOk(db) && Removes(db, db', gone)
    requires Superseded(db, gone.key, gone.slot)
    ensures HistoryOk(db') && KeepsOrder(db, db')
  {
    OldestRootedAfter(db, db', gone);
    forall k, t | Superseded(db, k, t) ensures Superseded(db', k, t) {
      SupersededAfterPurge(db, db', gone, k, t);
    }
    forall v | v in db'.logical && v.slot in db'.frozen && v !in db'.index ensures GoneOk(db', v) {
      if v != gone && !Superseded(db, v.key, v.slot) {
        ErasedAfter(db, db', gone, v.key, v.slot);
      }
    }
  }

  lemma EraseHistory(db: Db, db': Db, gone: Version)
    requires HistoryOk(db) && Removes(db, db', gone)
    requires Erasable(db, gone.key, gone.slot) && gone.slot in db.roots
    ensures HistoryOk(db') && KeepsOrder(db, db')
  {
    OldestRootedAfter(db, db', gone);
    assert ErasedAt(db', gone.key, gone.slot);
    forall k, t | t in db.roots && Superseded(db, k, t) && Version(k, t) in db'.index ensures Superseded(db', k, t) {
      SupersededOrErased(db, db', gone, k, t);
    }
    forall v | v in db'.logical && v.slot in db'.frozen && v !in db'.index ensures GoneOk(db', v) {
      if v == gone {
        assert Erased(db', v.key, v.slot);
      } else if Superseded(db, v.key, v.slot) {
        SupersededOrErased(db, db', gone, v.key, v.slot);
      } else {
        ErasedAfter(db, db', gone, v.key, v.slot);
      }
    }
  }

  lemma SupersededOrErased(db: Db, db': Db, gone: Version, k: Pubkey, t: Slot)
    requires Removes(db, db', gone) && Superseded(db, k, t) && ErasedAt(db', gone.key, gone.slot)
    requires OldestRooted(db, gone.key, gone.slot)
    ensures Superseded(db', k, t) || Erased(db', k, t)
    ensures t in db.roots && Version(k, t) in db'.index ==> Superseded(db', k, t)
  {
    var newer: Slot :| newer in db.roots && t < newer && Version(k, newer) in db.index;
    if Version(k, newer) == gone {
      assert ErasedAt(db', k, newer);
    } else {
      assert Version(k, newer) in db'.index;
    }
  }

  lemma PurgeHere(db: Db, s: Slot, k: Pubkey)
    requires CanPurge(db, s, k) && Here(db, s)
    requires KeepsOrder(db, DoPurge(db, s, k))
    ensures Here(DoPurge(db, s, k), s)
  {
    var db' := DoPurge(db, s, k);
    forall v | v in db'.index && v.slot == s ensures VersionOk(db', v) {
      assert VersionOk(db, v);
    }
    forall v | v in db'.logical && v.slot == s ensures CacheOk(db', v) {
      assert CacheOk(db, v);
    }
  }

  lemma EraseHere(db: Db, s: Slot, k: Pubkey)
    requires CanErase(db, s, k) && Here(db, s)
    requires KeepsOrder(db, DoErase(db, s, k))
    ensures Here(DoErase(db, s, k), s)
  {
    var db' := DoErase(db, s, k);
    forall x | x in db'.jobs[s].doomed ensures Erasable(db', x, s) {
      assert Erasable(db, x, s);
    }
    forall v | v in db'.index && v.slot == s ensures VersionOk(db', v) {
      assert VersionOk(db, v);
    }
    forall v | v in db'.logical && v.slot == s ensures CacheOk(db', v) {
      assert CacheOk(db, v);
    }
  }

  // ----- Clean -----

  lemma CleanHere(db: Db, s: Slot, k: Pubkey)
    requires IsStored(db, s, k) && Here(db, s)
    ensures Here(DoClean(db, s, k), s)
  {
    var db' := DoClean(db, s, k);
    assert VersionOk(db, Version(k, s));
    forall v | v in db'.index && v.slot == s ensures VersionOk(db', v) {
      assert VersionOk(db, v);
    }
    forall v | v in db'.logical && v.slot == s ensures CacheOk(db', v) {
      assert CacheOk(db, v);
    }
  }

  lemma DropStorageLocal(db: Db, s: Slot)
    requires CanDropStorage(db, s) && FilesOk(db)
    ensures Local(db, DoDropStorage(db, s), s)
  {
  }

  lemma DropStorageHere(db: Db, s: Slot)
    requires CanDropStorage(db, s) && Here(db, s)
    ensures Here(DoDropStorage(db, s), s)
  {
    var db' := DoDropStorage(db, s);
    forall v | v in db'.index ensures v.slot != s {
      assert v.slot == s ==> v.key in IndexedAt(db, s);
    }
    forall v | v in db'.logical && v.slot == s ensures CacheOk(db', v) {
      assert CacheOk(db, v);
    }
  }

  // ----- Together -----

  lemma EmptyIsConsistent()
    ensures Inv(Empty())
  {
  }

  lemma StepLocal(db: Db, step: Step)
    requires FilesOk(db) && SlotOk(db, step.s) && Enabled(db, step)
    requires !TakesOut(step)
    ensures Local(db, Apply(db, step), step.s)
  {
    match step
    case Write(s, k, account) => WriteLocal(db, s, k, account);
    case PublishWrite(s, k) => PublishLocal(db, s, k);
    case Freeze(s) => FreezeLocal(db, s);
    case AddRoot(s) => AddRootLocal(db, s);
    case FlushBegin(s, outdated) => FlushLocal(db, s, outdated);
    case FlushCreate(s) => CreateLocal(db, s);
    case CopyAccount(s, k, offset) => CopyLocal(db, s, k, offset);
    case BeginIndexing(s) => BeginIndexingLocal(db, s);
    case IndexAccount(s, k) => IndexLocal(db, s, k);
    case FlushDrop(s) => DropCacheLocal(db, s);
    case ShrinkBegin(s, zeroes) => ShrinkLocal(db, s, zeroes);
    case ReplaceStore(s) => ReplaceLocal(db, s);
    case Unregister(s) => UnregisterLocal(db, s);
    case DropStorage(s) => DropStorageLocal(db, s);
  }

  lemma StepHere(db: Db, step: Step)
    requires FilesOk(db) && Here(db, step.s) && Enabled(db, step)
    requires KeepsOrder(db, Apply(db, step))
    ensures Here(Apply(db, step), step.s)
  {
    match step
    case Write(s, k, account) => WriteHere(db, s, k, account);
    case PublishWrite(s, k) => PublishHere(db, s, k);
    case Freeze(s) => FreezeHere(db, s);
    case AddRoot(s) => AddRootHere(db, s);
    case FlushBegin(s, outdated) => FlushHere(db, s, outdated);
    case PurgeKey(s, k) => PurgeHere(db, s, k);
    case FlushCreate(s) => CreateHere(db, s);
    case CopyAccount(s, k, offset) => CopyHere(db, s, k, offset);
    case BeginIndexing(s) => BeginIndexingHere(db, s);
    case IndexAccount(s, k) => IndexHere(db, s, k);
    case FlushDrop(s) => DropCacheHere(db, s);
    case ShrinkBegin(s, zeroes) => ShrinkHere(db, s, zeroes);
    case DropZeroLamport(s, k) => EraseHere(db, s, k);
    case ReplaceStore(s) => ReplaceHere(db, s);
    case Unregister(s) => UnregisterHere(db, s);
    case CleanOutdated(s, k) => CleanHere(db, s, k);
    case CleanZeroLamport(s, k) => CleanHere(db, s, k);
    case DropStorage(s) => DropStorageHere(db, s);
  }

  lemma RemovingStep(db: Db, step: Step)
    requires Enabled(db, step) && SlotOk(db, step.s) && HistoryOk(db)
    requires TakesOut(step)
    ensures Removes(db, Apply(db, step), Version(step.k, step.s))
    ensures HistoryOk(Apply(db, step)) && KeepsOrder(db, Apply(db, step))
  {
    RemovesOne(db, step);
    if step.PurgeKey? || step.CleanOutdated? {
      PurgeHistory(db, Apply(db, step), Version(step.k, step.s));
    } else {
      EraseHistory(db, Apply(db, step), Version(step.k, step.s));
    }
  }

  lemma RemovesOne(db: Db, step: Step)
    requires Enabled(db, step) && TakesOut(step)
    ensures Removes(db, Apply(db, step), Version(step.k, step.s))
  {
  }

  /** Nothing freezes while it is missing from the index. */
  lemma FrozenIsIndexed(db: Db, step: Step, v: Version)
    requires CachesOk(db) && Enabled(db, step)
    requires v in Apply(db, step).logical && v.slot in Apply(db, step).frozen && v !in Apply(db, step).index
    requires !TakesOut(step)
    ensures v in db.logical && v.slot in db.frozen
  {
  }

  lemma StepKeepsInvariant(db: Db, step: Step)
    requires Inv(db) && Enabled(db, step)
    ensures Inv(Apply(db, step))
  {
    var db' := Apply(db, step);
    assert SlotOk(db, step.s);
    if TakesOut(step) {
      RemovingStep(db, step);
      StepHere(db, step);
      StepAt(db, db', step.s);
    } else {
      StepLocal(db, step);
      GrowingKeepsOrder(db, db');
      StepHere(db, step);
      forall v | v in db'.logical && v.slot in db'.frozen && v !in db'.index
        ensures v in db.logical && v.slot in db.frozen
      {
        FrozenIsIndexed(db, step, v);
      }
      LocalStepKeeps(db, db', step.s);
    }
  }
}
