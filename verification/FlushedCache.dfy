/** The flushing code itself, on the fields of the database, proved against module FlushClean. */
module FlushedCache {
  import opened Types
  import opened FlushClean

  /** The tighter of the two limits on cleaning: an ongoing scan and the root that was asked for. */
  function MaxCleanRoot(minScanRoot: Option<Slot>, proposed: Option<Slot>): (root: Option<Slot>)
    ensures root.None? <==> minScanRoot.None? && proposed.None?
    ensures root.Some? && minScanRoot.Some? ==> root.value <= minScanRoot.value
    ensures root.Some? && proposed.Some? ==> root.value <= proposed.value
    ensures root.Some? ==> root == minScanRoot || root == proposed
  {
    match (minScanRoot, proposed)
    case (None, None) => None
    case (Some(scan), None) => Some(scan)
    case (None, Some(root)) => Some(root)
    case (Some(scan), Some(root)) => Some(if scan < root then scan else root)
  }

  /** Decide, account by account in any order, what to store and what to drop as already written. */
  method SplitAccounts(contents: map<Pubkey, Account>, clean: bool, written: set<Pubkey>)
    returns (accounts: map<Pubkey, Account>, outdated: set<Pubkey>, written': set<Pubkey>)
    ensures outdated == if clean then contents.Keys * written else {}
    ensures accounts == contents - outdated
    ensures written' == if clean then written + contents.Keys else written
  {
    accounts, outdated, written' := map[], {}, written;
    var todo := contents.Keys;
    while todo != {}
      invariant todo <= contents.Keys
      invariant outdated == if clean then (contents.Keys - todo) * written else {}
      invariant accounts.Keys == contents.Keys - todo - outdated
      invariant forall k :: k in accounts ==> accounts[k] == contents[k]
      invariant written' == if clean then written + (contents.Keys - todo) else written
    {
      var k :| k in todo;
      todo := todo - {k};
      var shouldFlush := !clean || k !in written';
      if clean { written' := written' + {k}; }
      if shouldFlush {
        accounts := accounts[k := contents[k]];
      } else {
        outdated := outdated + {k};
      }
    }
  }

  class AccountsDb {
    var cache: map<Slot, map<Pubkey, Account>>
    var index: map<Version, Place>
    var storage: map<Slot, map<Pubkey, Account>>
    var roots: set<Slot>
    var unflushedRoots: set<Slot>
    var maxFlushedRoot: Slot
    var contended: set<Slot>
    const markObsolete: bool

    constructor (markObsolete: bool)
      ensures State() == Accounts(map[], map[], map[], {}) && unflushedRoots == {} && maxFlushedRoot == 0
      ensures contended == {}
      ensures this.markObsolete == markObsolete && Valid()
    {
      cache, index, storage, roots, unflushedRoots, maxFlushedRoot, contended := map[], map[], map[], {}, {}, 0, {};
      this.markObsolete := markObsolete;
    }

    ghost function State(): (db: Accounts)
      reads this
    {
      Accounts(cache, index, storage, roots)
    }

    /** The index agrees with cache and storage, and a queued root that is still cached is a root of the index. */
    ghost predicate Valid()
      reads this
    {
      Consistent(State()) && forall r :: r in unflushedRoots && r in cache ==> r in roots
    }

    /** Store an account in the write cache of a slot that has no storage. */
    method StoreCached(slot: Slot, k: Pubkey, account: Account)
      requires Valid() && slot !in storage && slot !in unflushedRoots
      modifies this`cache, this`index
      ensures Valid()
      ensures slot in cache && cache[slot] == (if slot in old(cache) then old(cache)[slot] else map[])[k := account]
      ensures cache - {slot} == old(cache) - {slot} && index == old(index)[Version(k, slot) := InCache]
    {
      var contents: map<Pubkey, Account> := if slot in cache then cache[slot] else map[];
      contents := contents[k := account];
      CachingKeepsConsistent(State(), slot, k, contents);
      cache := cache[slot := contents];
      index := index[Version(k, slot) := InCache];
    }

    method AddRoot(slot: Slot)
      requires Valid()
      modifies this`roots, this`unflushedRoots
      ensures Valid()
      ensures roots == old(roots) + {slot} && unflushedRoots == old(unflushedRoots) + {slot}
    {
      roots, unflushedRoots := roots + {slot}, unflushedRoots + {slot};
    }

    /** Take the unflushed roots at or below `maxRoot` out of the queue. */
    method ClearRoots(maxRoot: Option<Slot>) returns (taken: set<Slot>)
      modifies this`unflushedRoots
      ensures taken == set r | r in old(unflushedRoots) && (maxRoot.None? || r <= maxRoot.value)
      ensures unflushedRoots == old(unflushedRoots) - taken
    {
      if maxRoot.Some? {
        var greater := set r | r in unflushedRoots && r >= maxRoot.value + 1;
        taken := unflushedRoots - greater;
        unflushedRoots := greater;
      } else {
        taken := unflushedRoots;
        unflushedRoots := {};
      }
    }

    /** Remove the index entries of a cached slot that are not going to be stored. */
    method PurgeSlotCachePubkeys(slot: Slot, keys: set<Pubkey>, isDead: bool)
      requires slot !in storage
      requires forall k :: k in keys ==> Version(k, slot) in index
      modifies this`index, this`roots
      ensures index == old(index) - OutdatedVersions(slot, keys)
      ensures roots == if isDead then old(roots) - {slot} else old(roots)
    {
      var todo := keys;
      while todo != {}
        modifies this`index
        invariant todo <= keys
        invariant index == old(index) - OutdatedVersions(slot, keys - todo)
      {
        var k :| k in todo;
        todo := todo - {k};
        assert Version(k, slot) in index;
        index := index - {Version(k, slot)};
        assert OutdatedVersions(slot, keys - todo) == OutdatedVersions(slot, keys - (todo + {k})) + {Version(k, slot)};
      }
      assert keys - todo == keys;
      if isDead {
        roots := roots - {slot};
      }
    }

    /** Point the index at the new storage, dropping older stored versions if they are to be reclaimed. */
    method UpdateIndex(slot: Slot, keys: set<Pubkey>, reclaim: bool) returns (touched: set<Slot>)
      requires forall k :: k in keys ==> Version(k, slot) in index
      modifies this`index
      ensures index == Upserted(old(index), slot, keys, reclaim)
      ensures touched == ReplacedSlots(old(index), slot, keys, reclaim)
    {
      touched := {};
      var todo := keys;
      ghost var start := index;
      while todo != {}
        modifies this`index
        invariant todo <= keys
        invariant index == Upserted(start, slot, keys - todo, reclaim)
        invariant touched == ReplacedSlots(start, slot, keys - todo, reclaim)
      {
        var k :| k in todo;
        ghost var done := keys - todo;
        todo := todo - {k};
        var older := set v | v in index && reclaim && v.key == k && v.slot < slot && index[v].InStorage?;
        touched := touched + set v | v in older :: v.slot;
        index := (index - older)[Version(k, slot) := InStorage];
        UpsertOne(start, slot, done, reclaim, k);
        assert keys - todo == done + {k};
      }
      assert keys - todo == keys;
    }

    /** Drop the storages that the reclaim left without a live account. */
    method HandleReclaims(touched: set<Slot>)
      modifies this`storage, this`roots
      ensures storage == old(storage) - EmptySlots(index, touched) && roots == old(roots) - EmptySlots(index, touched)
    {
      var dead := EmptySlots(index, touched);
      storage := storage - dead;
      roots := roots - dead;
    }

    /** Write the accounts to a new storage, point the index at it, and drop the storages that died of it. */
    method StoreAccountsFrozen(slot: Slot, accounts: map<Pubkey, Account>, reclaim: bool)
      requires forall k :: k in accounts ==> Version(k, slot) in index
      modifies this`index, this`storage, this`roots
      ensures index == Upserted(old(index), slot, accounts.Keys, reclaim)
      ensures var dead := EmptySlots(index, ReplacedSlots(old(index), slot, accounts.Keys, reclaim));
              storage == old(storage)[slot := accounts] - dead && roots == old(roots) - dead
    {
      storage := storage[slot := accounts];
      var touched := UpdateIndex(slot, accounts.Keys, reclaim);
      HandleReclaims(touched);
    }

    /** Store what a slot cache holds, or purge what newer slots of the call have written, and drop the slot cache. */
    method DoFlushSlotCache(slot: Slot, mode: Mode, written: set<Pubkey>) returns (written': set<Pubkey>)
      requires Consistent(State()) && slot in cache && mode.markObsolete == markObsolete
      modifies this`cache, this`index, this`storage, this`roots
      ensures State() == FlushSlot(old(State()), slot, mode, written)
      ensures written' == NowWritten(old(State()), slot, mode, written)
    {
      ghost var before := State();
      var accounts, outdated;
      accounts, outdated, written' := SplitAccounts(cache[slot], mode.Cleans(slot), written);
      PurgeSlotCachePubkeys(slot, outdated, accounts == map[]);
      if accounts != map[] {
        StoreAccountsFrozen(slot, accounts, mode.markObsolete && mode.Cleans(slot));
        cache := cache - {slot};
        FlushStores(before, slot, mode, written, State());
      } else {
        cache := cache - {slot};
        FlushDies(before, slot, mode, written, State());
      }
    }

    /** Flush one slot unless another thread holds it or it has left the cache. */
    method FlushSlotCacheWithClean(slot: Slot, mode: Mode, written: set<Pubkey>)
      returns (flushed: bool, written': set<Pubkey>)
      requires Consistent(State()) && mode.markObsolete == markObsolete
      modifies this`cache, this`index, this`storage, this`roots, this`contended
      ensures flushed <==> slot in old(cache) && slot !in old(contended)
      ensures flushed ==> State() == FlushSlot(old(State()), slot, mode, written)
      ensures flushed ==> written' == NowWritten(old(State()), slot, mode, written)
      ensures !flushed ==> State() == old(State()) && written' == written
      ensures contended == old(contended)
    {
      flushed, written' := false, written;
      if slot !in contended {
        contended := contended + {slot};
        if slot in cache {
          written' := DoFlushSlotCache(slot, mode, written);
          flushed := true;
        }
        assert slot in contended;
        contended := contended - {slot};
      }
    }

    /** Flush the highest root to do, unless another thread holds it or it has left the cache. */
    method FlushHighest(taken: set<Slot>, todo: set<Slot>, n: nat, mode: Mode, written: set<Pubkey>,
                        ghost before: Accounts, ghost flushed: set<Slot>)
      returns (root: Slot, n': nat, written': set<Pubkey>, ghost flushed': set<Slot>)
      requires mode.markObsolete == markObsolete && Progressed(before, State(), flushed, mode, written)
      requires todo != {} && FlushedAbove(flushed, n, taken, todo, before.cache.Keys - contended)
      modifies this`cache, this`index, this`storage, this`roots, this`contended
      ensures contended == old(contended) && root in todo
      ensures FlushedAbove(flushed', n', taken, todo - {root}, before.cache.Keys - contended)
      ensures Progressed(before, State(), flushed', mode, written')
    {
      root := Highest(todo);
      ghost var db := State();
      StillCached(before, db, flushed, mode, written, root);
      FlushedNext(flushed, n, taken, todo, before.cache.Keys - contended, root);
      var did;
      did, written' := FlushSlotCacheWithClean(root, mode, written);
      if did {
        NextProgress(before, db, flushed, mode, written, root);
        n', flushed' := n + 1, flushed + {root};
      } else {
        n', flushed' := n, flushed;
      }
    }

    /** Flush the given roots from the highest to the lowest, so that outdated versions are known when they come up. */
    method FlushNewestFirst(taken: set<Slot>, mode: Mode) returns (ghost flushed: set<Slot>, rootsFlushed: nat)
      requires Consistent(State()) && mode.markObsolete == markObsolete
      modifies this`cache, this`index, this`storage, this`roots, this`contended
      ensures flushed == taken * (old(cache).Keys - old(contended))
      ensures rootsFlushed == |flushed| && contended == old(contended)
      ensures Consistent(State()) && Flushed(old(State()), State(), flushed, mode)
    {
      ghost var before := State();
      var written: set<Pubkey> := {};
      var todo := taken;
      flushed, rootsFlushed := {}, 0;
      NothingFlushed(before, mode);
      FlushedNone(taken, before.cache.Keys - contended);
      while todo != {}
        invariant contended == old(contended)
        invariant FlushedAbove(flushed, rootsFlushed, taken, todo, before.cache.Keys - contended)
        invariant Progressed(before, State(), flushed, mode, written)
      {
        var root;
        root, rootsFlushed, written, flushed := FlushHighest(taken, todo, rootsFlushed, mode, written, before, flushed);
        todo := todo - {root};
      }
      FlushedAll(flushed, rootsFlushed, taken, before.cache.Keys - contended);
    }

    /** Flush the given roots; a root that is still cached stays a root. */
    method FlushTaken(taken: set<Slot>, mode: Mode) returns (ghost flushed: set<Slot>, rootsFlushed: nat)
      requires Consistent(State()) && mode.markObsolete == markObsolete
      modifies this`cache, this`index, this`storage, this`roots, this`contended
      ensures forall r :: r in flushed <==> r in taken && r in old(cache) && r !in old(contended)
      ensures rootsFlushed == |flushed| && contended == old(contended)
      ensures Consistent(State()) && Flushed(old(State()), State(), flushed, mode)
      ensures forall r :: r in cache && r in old(roots) && r in old(cache) ==> r in roots
      ensures cache.Keys <= old(cache).Keys
    {
      flushed, rootsFlushed := FlushNewestFirst(taken, mode);
      CachedRootsStay(old(State()), State(), flushed, mode);
    }

    /** The highest root flushed so far never goes down. */
    method SetMaxFlushRoot(taken: set<Slot>)
      modifies this`maxFlushedRoot
      ensures old(maxFlushedRoot) <= maxFlushedRoot && forall r :: r in taken ==> r <= maxFlushedRoot
      ensures maxFlushedRoot == old(maxFlushedRoot) || maxFlushedRoot in taken
    {
      if taken != {} {
        var last := Highest(taken);
        maxFlushedRoot := if maxFlushedRoot < last then last else maxFlushedRoot;
      }
    }

    /** Flush the rooted slots at or below the requested root. */
    method FlushRootedAccountsCache(requested: Option<Slot>, shouldClean: bool, minScanRoot: Option<Slot>)
      returns (ghost flushed: set<Slot>, ghost mode: Mode, newRoots: nat, rootsFlushed: nat)
      requires Valid()
      modifies this
      ensures Valid() && flushed <= old(roots)
      ensures mode ==
              Mode(shouldClean, if shouldClean then MaxCleanRoot(minScanRoot, requested) else None, markObsolete)
      ensures forall r :: r in flushed <==>
                r in old(unflushedRoots) && (requested.None? || r <= requested.value) && r in old(cache)
                  && r !in old(contended)
      ensures Flushed(old(State()), State(), flushed, mode)
      ensures forall v :: v in index <==>
                v in old(index)
                && !CleanedAway(old(State()), flushed, shouldClean, requested, minScanRoot, markObsolete, v)
      ensures unflushedRoots == set r | r in old(unflushedRoots) && requested.Some? && requested.value < r
      ensures newRoots == |old(unflushedRoots) - unflushedRoots| && rootsFlushed == |flushed|
      ensures forall r :: r in old(unflushedRoots) - unflushedRoots ==> r <= maxFlushedRoot
      ensures old(maxFlushedRoot) <= maxFlushedRoot
      ensures maxFlushedRoot == old(maxFlushedRoot) || maxFlushedRoot in old(unflushedRoots) - unflushedRoots
      ensures contended == old(contended)
    {
      var how := Mode(shouldClean, if shouldClean then MaxCleanRoot(minScanRoot, requested) else None, markObsolete);
      mode := how;
      var taken := ClearRoots(requested);
      assert State() == old(State());
      flushed, rootsFlushed := FlushTaken(taken, how);
      forall v | v in old(index)
        ensures Removed(old(State()), flushed, how, v) <==>
                CleanedAway(old(State()), flushed, shouldClean, requested, minScanRoot, markObsolete, v)
      {
        RemovedMeaning(old(State()), flushed, shouldClean, requested, minScanRoot, markObsolete, v);
      }
      SetMaxFlushRoot(taken);
      newRoots := |taken|;
      assert old(unflushedRoots) - unflushedRoots == taken;
    }
  }

  /**
    What a call takes out of the index: of the versions it flushes, and of the stored ones if obsolete accounts are
    marked, those that have a newer one in a root it flushes and may clean from.  It may do so if it was asked to clean,
    from roots up to the requested one and, while a scan goes on, up to the root of that scan.
  */
  ghost predicate CleanedAway(before: Accounts, flushed: set<Slot>, shouldClean: bool, requested: Option<Slot>,
                              minScanRoot: Option<Slot>, markObsolete: bool, v: Version)
    requires v in before.index
  {
    && (v.slot in flushed || (markObsolete && before.index[v].InStorage?))
    && exists r :: r in flushed && v.slot < r && r in before.cache && v.key in before.cache[r]
                   && MayCleanFrom(shouldClean, requested, minScanRoot, r)
  }

  ghost predicate MayCleanFrom(shouldClean: bool, requested: Option<Slot>, minScanRoot: Option<Slot>, r: Slot) {
    shouldClean && (requested.Some? ==> r <= requested.value) && (minScanRoot.Some? ==> r <= minScanRoot.value)
  }

  lemma RemovedMeaning(before: Accounts, flushed: set<Slot>, shouldClean: bool, requested: Option<Slot>,
                       minScanRoot: Option<Slot>, markObsolete: bool, v: Version)
    requires v in before.index
    ensures var root := if shouldClean then MaxCleanRoot(minScanRoot, requested) else None;
            Removed(before, flushed, Mode(shouldClean, root, markObsolete), v) <==>
            CleanedAway(before, flushed, shouldClean, requested, minScanRoot, markObsolete, v)
  {
    var mode := Mode(shouldClean, if shouldClean then MaxCleanRoot(minScanRoot, requested) else None, markObsolete);
    forall r ensures mode.Cleans(r) <==> MayCleanFrom(shouldClean, requested, minScanRoot, r) {}
  }

  lemma CachingKeepsConsistent(db: Accounts, slot: Slot, k: Pubkey, contents: map<Pubkey, Account>)
    requires Consistent(db) && slot !in db.storage
    requires contents.Keys == (if slot in db.cache then db.cache[slot].Keys else {}) + {k}
    ensures Consistent(db.(cache := db.cache[slot := contents], index := db.index[Version(k, slot) := InCache]))
  {
    forall v | v in db.index && v.slot == slot ensures slot in db.cache && v.key in contents {
      assert v.slot !in db.storage;
    }
  }

  /** A root that is still cached after the call is still a root. */
  lemma CachedRootsStay(before: Accounts, after: Accounts, flushed: set<Slot>, mode: Mode)
    requires Consistent(before) && Flushed(before, after, flushed, mode)
    ensures after.cache.Keys <= before.cache.Keys
    ensures forall r :: r in after.cache && r in before.roots ==> r in after.roots
  {
    forall r | r in after.cache && r in before.roots ensures !Emptied(before, after, r) {
      CachedKeepsEntries(before, after, flushed, mode, r);
    }
  }

  method Highest(slots: set<Slot>) returns (top: Slot)
    requires slots != {}
    ensures top in slots && forall t :: t in slots ==> t <= top
  {
    HasMax(slots);
    top :| top in slots && forall t :: t in slots ==> t <= top;
  }

  /** Of the roots taken, those not to do are the highest, and the `n` of them that can be flushed have been. */
  ghost predicate FlushedAbove(flushed: set<Slot>, n: nat, taken: set<Slot>, todo: set<Slot>, free: set<Slot>) {
    && todo <= taken && flushed == (taken - todo) * free && n == |flushed|
    && (forall r, t :: r in taken && r !in todo && t in todo ==> t < r)
  }

  lemma FlushedNone(taken: set<Slot>, free: set<Slot>)
    ensures FlushedAbove({}, 0, taken, taken, free)
  {
  }

  lemma FlushedNext(flushed: set<Slot>, n: nat, taken: set<Slot>, todo: set<Slot>, free: set<Slot>, root: Slot)
    requires FlushedAbove(flushed, n, taken, todo, free) && root in todo && forall t :: t in todo ==> t <= root
    ensures root !in flushed && forall s :: s in flushed ==> root < s
    ensures root in free ==> FlushedAbove(flushed + {root}, n + 1, taken, todo - {root}, free)
    ensures root !in free ==> FlushedAbove(flushed, n, taken, todo - {root}, free)
  {
    assert flushed + {root} - {root} == flushed;
  }

  lemma FlushedAll(flushed: set<Slot>, n: nat, taken: set<Slot>, free: set<Slot>)
    requires FlushedAbove(flushed, n, taken, {}, free)
    ensures flushed == taken * free && n == |flushed|
  {
  }

  lemma NextProgress(before: Accounts, db: Accounts, flushed: set<Slot>, mode: Mode, written: set<Pubkey>, root: Slot)
    requires Progressed(before, db, flushed, mode, written) && root in db.cache && forall s :: s in flushed ==> root < s
    ensures Progressed(before, FlushSlot(db, root, mode, written), flushed + {root}, mode,
              NowWritten(db, root, mode, written))
  {
    StepFlushed(before, db, flushed, mode, written, root);
  }

  /** The state of a call that has flushed some of its slots. */
  ghost predicate Progressed(before: Accounts, db: Accounts, flushed: set<Slot>, mode: Mode, written: set<Pubkey>) {
    Consistent(before) && Consistent(db) && Flushed(before, db, flushed, mode)
      && IsWritten(before, flushed, mode, written)
  }

  lemma StillCached(before: Accounts, db: Accounts, flushed: set<Slot>, mode: Mode, written: set<Pubkey>, root: Slot)
    requires Progressed(before, db, flushed, mode, written) && root !in flushed
    ensures root in db.cache <==> root in before.cache
  {
  }

  lemma HasMax(slots: set<Slot>)
    requires slots != {}
    ensures exists top :: top in slots && forall t :: t in slots ==> t <= top
  {
    var top := MaxSlot(slots);
  }

  /** The slots among `slots` without an index entry. */
  function EmptySlots(index: map<Version, Place>, slots: set<Slot>): (empty: set<Slot>) {
    set t | t in slots && (forall w :: w in index ==> w.slot != t)
  }

  predicate Replaced(index: map<Version, Place>, slot: Slot, keys: set<Pubkey>, reclaim: bool, v: Version)
    requires v in index
  {
    reclaim && v.key in keys && v.slot < slot && index[v].InStorage?
  }

  /** The index once every pubkey in `keys` points at the storage of `slot`. */
  ghost function Upserted(index: map<Version, Place>, slot: Slot, keys: set<Pubkey>,
                          reclaim: bool): (index': map<Version, Place>) {
    map v | v in index && !Replaced(index, slot, keys, reclaim, v) ::
      if v.slot == slot && v.key in keys then InStorage else index[v]
  }

  lemma UpsertOne(index: map<Version, Place>, slot: Slot, keys: set<Pubkey>, reclaim: bool, k: Pubkey)
    requires Version(k, slot) in index
    ensures var index' := Upserted(index, slot, keys, reclaim);
            var older := set v | v in index' && reclaim && v.key == k && v.slot < slot && index'[v].InStorage?;
            Upserted(index, slot, keys + {k}, reclaim) == (index' - older)[Version(k, slot) := InStorage]
  {
  }

  function ReplacedSlots(index: map<Version, Place>, slot: Slot, keys: set<Pubkey>, reclaim: bool): (slots: set<Slot>) {
    set v | v in index && Replaced(index, slot, keys, reclaim, v) :: v.slot
  }

  /** Purging and upserting, in turn, give the index of the specification. */
  lemma UpsertedIsKept(before: Accounts, slot: Slot, mode: Mode, outdated: set<Pubkey>, stored: set<Pubkey>)
    requires slot in before.cache && outdated + stored == before.cache[slot].Keys
    requires forall v :: v in before.index && v.slot == slot ==> v.key in before.cache[slot]
    ensures var reclaim := mode.markObsolete && mode.Cleans(slot);
            Upserted(before.index - OutdatedVersions(slot, outdated), slot, stored, reclaim) ==
              KeptIndex(before, slot, mode, outdated, stored)
    ensures stored == {} ==>
            before.index - OutdatedVersions(slot, outdated) == KeptIndex(before, slot, mode, outdated, stored)
  {
    forall v | v in before.index
      ensures v in OutdatedVersions(slot, outdated) <==> v.slot == slot && v.key in outdated
    {
      assert v == Version(v.key, v.slot);
    }
  }

  /** The slots that an upsert left empty are the dead slots of the specification. */
  lemma ReplacedIsReclaimed(before: Accounts, slot: Slot, mode: Mode, outdated: set<Pubkey>, stored: set<Pubkey>)
    ensures var index := before.index - OutdatedVersions(slot, outdated);
            var kept := KeptIndex(before, slot, mode, outdated, stored);
            DeadSlots(before, kept, slot, stored, mode)
            == EmptySlots(kept, ReplacedSlots(index, slot, stored, mode.markObsolete && mode.Cleans(slot)))
  {
    var index := before.index - OutdatedVersions(slot, outdated);
    forall v | v in before.index && v.slot < slot ensures v in index { }
  }

  /** A flush that stores something ends in the state of the specification. */
  lemma FlushStores(before: Accounts, slot: Slot, mode: Mode, written: set<Pubkey>, after: Accounts)
    requires slot in before.cache && FlushedAccounts(before, slot, mode, written) != map[]
    requires forall v :: v in before.index && v.slot == slot ==> v.key in before.cache[slot]
    requires after.cache == before.cache - {slot}
    requires var outdated := Outdates(before, slot, mode, written);
             var accounts := FlushedAccounts(before, slot, mode, written);
             var purged := before.index - OutdatedVersions(slot, outdated);
             var reclaim := mode.markObsolete && mode.Cleans(slot);
             var dead := EmptySlots(after.index, ReplacedSlots(purged, slot, accounts.Keys, reclaim));
             && after.index == Upserted(purged, slot, accounts.Keys, reclaim)
             && after.storage == before.storage[slot := accounts] - dead
             && after.roots == before.roots - dead
    ensures after == FlushSlot(before, slot, mode, written)
  {
    var outdated, accounts := Outdates(before, slot, mode, written), FlushedAccounts(before, slot, mode, written);
    UpsertedIsKept(before, slot, mode, outdated, accounts.Keys);
    ReplacedIsReclaimed(before, slot, mode, outdated, accounts.Keys);
    assert after.index == KeptIndex(before, slot, mode, outdated, accounts.Keys);
    assert after.storage == FlushSlot(before, slot, mode, written).storage;
  }

  /** A flush of a slot that newer slots outdate altogether ends in the state of the specification. */
  lemma FlushDies(before: Accounts, slot: Slot, mode: Mode, written: set<Pubkey>, after: Accounts)
    requires slot in before.cache && FlushedAccounts(before, slot, mode, written) == map[]
    requires forall v :: v in before.index && v.slot == slot ==> v.key in before.cache[slot]
    requires after.cache == before.cache - {slot} && after.storage == before.storage
    requires after.roots == before.roots - {slot}
    requires after.index == before.index - OutdatedVersions(slot, Outdates(before, slot, mode, written))
    ensures after == FlushSlot(before, slot, mode, written)
  {
    var outdated, accounts := Outdates(before, slot, mode, written), FlushedAccounts(before, slot, mode, written);
    UpsertedIsKept(before, slot, mode, outdated, accounts.Keys);
    assert accounts.Keys == {};
    assert DeadSlots(before, after.index, slot, accounts.Keys, mode) == {};
    assert after.index == FlushSlot(before, slot, mode, written).index;
    assert after.storage == FlushSlot(before, slot, mode, written).storage;
  }
}
