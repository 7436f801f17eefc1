# Accounts database of the validator: a Dafny model

This project models the accounts database of the Gorchain validator (`gorchain/accounts-db`): how account
versions are cached, flushed, shrunk, cleaned, locked, counted, read for snapshots and hashed at startup.
It also covers three small neighbours: the blockhash window, the decimal printing of token amounts and the
order in which crates are published. `dafny verify dfyconfig.toml` checks the whole project.

An *account version* is what was stored under a pubkey in a slot. The *index* maps a version to the place
of its account: the write cache, or an offset in a *storage*, the append-only file of a slot. A *root* is a
slot that can no longer be rolled back.

| module | subject |
|---|---|
| `StorageProtocol`, `ProtocolInvariant`, `ReaderSafety`, `RunHistory`, `ReaderRetries`, `JobCompletion`, `SingleReference` | the lock-free reader racing with writers, cache flushers, slot shrinkers and cleaners, as a state machine of atomic steps |
| `CleanDependencies`, `CleanSelection`, `CleanExample` | which zero-lamport keys clean may purge: simulated store counts, the closure over connected slots, the filter for incremental snapshots |
| `FlushClean`, `FlushedCache` | flushing roots from the newest to the oldest while dropping outdated versions; first as a description of the whole call, then as a class whose methods are proved against it |
| `SlotContention` | flushers and purgers excluding each other per slot |
| `LockTable`, `LockHistory`, `BatchOutcome`, `AccountLocks` | account locks of transaction batches, sequential and relaxed (the locking rule of SIMD-0083, section "Detailed Design") |
| `StorageReader` | reading a storage in chunks without its obsolete accounts |
| `StorageEntries`, `StorageWrites`, `DeadAccounts` | a storage's counters of live accounts, writing accounts to it, and removing reclaimed accounts |
| `LatticeHash`, `StartupScan`, `StartupTotals`, `StartupHash` | the accounts hash and the data length computed at startup |
| `StorageOrderer`, `StorageAlternation` | the interleaved order of storages, when it alternates small and large ones, and the consumers that share one |
| `SortDedup` | sorting accounts by key and keeping the last of each |
| `BlockhashQueues`, `TokenAmount`, `CrateOrder` | the three neighbours |

Conventions. Code that updates state in place is a class or a method with loops; protocols between threads are
state machines whose steps are what one thread does atomically; hash maps and hash sets are visited in an
arbitrary order, chosen anew each time, so every result holds for all orders. Pubkeys, slots, offsets and
hashes are natural numbers; counters are unbounded, and where the code subtracts, the model proves that
the result is not negative. The lattice hash wraps at 16 bits as in the code.

Places where code and comments differ, or where a property holds only under a condition:

- A newest rooted version survives a flush at bounds at or above the max clean root, not at every bound.
  `FlushClean.LatestSurvivesIff` gives the exact condition for any bound, `FlushClean.BelowMaxCleanRootIsLost` a state
  and a bound below the max clean root at which nothing is left.
- The loop that writes accounts to a storage creates a larger storage when an account does not fit. That can never help:
  the slot has its storage, and inserting a second one fails an assertion, or the one before it when a shrink is in
  progress. `StorageWrites.AccountStorage.WriteAccounts` states exactly when a write completes, and
  `StorageWrites.TooSmall` is a write that fails.
- A shrink drops a zero-lamport key on the strength of its reference count, which the comment takes for "the only
  instance". The reader needs that no older root has the key. `SingleReference.SingleRefIsOldest` states when the one
  implies the other, and `SingleReference.SingleReferenceMisleads` gives a reachable state where it does not: the key
  is still cached in an older root. The background service flushes before it shrinks.
- Obsolete marks of a storage are not cleared when its file is reset. That happens when accounts are written to a storage
  whose accounts have all been reclaimed and the first new one does not fit after the old ones; the old marks then
  point at accounts that are live (`StorageWrites.StaleMark`). `StorageWrites.MarksAgreeIff` states, for every life of a
  storage, that marks agree with the file exactly until that happens; storages written once never get there.
- The comment on the incremental-snapshot filter mentions candidates with empty slot lists; the code asserts that
  there are none, and so does the model.
- The comment on the ratio orderer promises small and large storages in turn. The code sends each storage's
  index, not its rank by capacity, through the selector. A permutation is proved for all inputs. The alternation of
  capacities is sure, for all rates and whatever the unstable sort makes of ties, exactly when there are at most two
  storages, or their capacities strictly increase, or all are equal (`StorageAlternation.AlternationIff`).

## Model

| member | source | states |
|---|---|---|
| `ReaderSafety.ReaderIsSafe` | gorchain/accounts-db/src/accounts_db.rs:4249-4406 | In every state of every run from an empty database, for every interleaving of one reader, on any fork and up to the unfrozen slot it executes, with writers, flushers, shrinkers and cleaners on any slots: no panic, no slow path, at most one cache miss; a found account is the one last stored under the key in the newest visible slot that has it; a miss means that newest version has no lamports, or there is none |
| `RunHistory.FoundIsLastWritten` | gorchain/accounts-db/src/accounts_db.rs:4249-4258 | The same on the actions of the run: an account found is the one of the last write of the key in the newest slot, among those given to the read and the slots made roots, in which the key was ever written |
| `RunHistory.MissingIsLastErased` | gorchain/accounts-db/src/accounts_db.rs:4129-4137 | A key reported missing was last written without lamports in that slot, or in no slot the read can see |
| `RunHistory.RunRecords` | gorchain/accounts-db/src/accounts_cache.rs:72-78 | In every state of every run, what is recorded for a key in a slot is the account of its last write there, and nothing is recorded without a write |
| `RunHistory.RunRoots` | gorchain/accounts-db/src/accounts_index.rs:1717-1736 | In every run the roots are the slots that were made roots |
| `JobCompletion.JobCanFinish` | gorchain/accounts-db/src/accounts_db.rs:5262-5365 | From every state of every run, whatever else is going on, every flush and every shrink can take its own steps to its end, in a bounded number |
| `JobCompletion.SecondWriteReplaces` | gorchain/accounts-db/src/accounts_cache.rs:72-78 | A slot that can be written to can be written to again; the later account of a key replaces the earlier one |
| `JobCompletion.UnusedStorageCanGo` | gorchain/accounts-db/src/accounts_db.rs:4201-4212 | A storage that no index entry and no job needs can be dropped |
| `RunHistory.ReadsHoldNothingUp` | gorchain/accounts-db/src/accounts_db.rs:721-730 | In every run a read keeps nothing from happening but new roots and writes of its key in the slots it was given |
| `ReaderSafety.MissedEntryHasMoved` | gorchain/accounts-db/src/account_storage.rs:52-72 | In every run, a reader whose lookups all failed finds on its next index read a different location: map, shrink map and map again cannot all miss a store the index still names, whatever shrinks finished or began in between |
| `ReaderSafety.UnmovedIsInAMap` | gorchain/accounts-db/src/account_storage.rs:170-198 | An index entry in a store is always backed by the storage map or the shrink map |
| `ReaderSafety.JobAssertionsHold` | gorchain/accounts-db/src/account_storage.rs:268-287 | In every run the assertions of purge, flush, shrink start, map replacement and shrink end hold whenever their step is taken |
| `ReaderSafety.StepProgress` | gorchain/accounts-db/src/accounts_db.rs:1610-1617 | The location of a version that nobody is writing is never reused: it stays, leaves the index, or moves to a storage with a larger id |
| `ReaderSafety.LatestIsNewest` | gorchain/accounts-db/src/accounts_index.rs:1004-1047 | What the index calls the latest visible entry of a key is the newest version ever stored in a visible slot, although flush, shrink and clean removed others |
| `ReaderSafety.NothingIndexed` | gorchain/accounts-db/src/accounts_db.rs:3193-3244 | A key without visible index entry was last stored with zero lamports, or never stored in a visible slot |
| `ReaderSafety.CleanedReadIsMissing` | gorchain/accounts-db/src/accounts_db.rs:4201-4217 | In every run, a reader whose entry and storage clean removed between its index read and its lookups finds no entry at all on the retry and reports the key missing, and the version it had seen has no lamports |
| `ReaderRetries.RetriesAreBounded` | gorchain/accounts-db/src/accounts_db.rs:4280-4308 | In every run, one read starts over at most as often as a flush, a shrink or the drop of a storage finishes on the slot it reads while it lasts |
| `ReaderRetries.ReadEnds` | gorchain/accounts-db/src/accounts_db.rs:4280-4308 | So a read has its result after at most five of its steps and four more for each such job |
| `ReaderRetries.LosingTakesAJob` | gorchain/accounts-db/src/account_storage.rs:52-72 | Only the end of a job on the slot takes away a place that the index named and the reader has yet to look up; a shrink in progress alone never does |
| `SingleReference.SingleRefIsOldest` | gorchain/accounts-db/src/accounts_db.rs:2879-2888 | When a slot has the only stored version of a key, no older root has the key exactly when none has it in the write cache |
| `SingleReference.SingleReferenceMisleads` | gorchain/accounts-db/src/accounts_db.rs:2879-2888 | A run to a state in which the single stored version of a key has no lamports, while dropping it would make an older, funded, cached version the latest one a reader finds |
| `ReaderSafety.ActionKeeps` | gorchain/accounts-db/src/accounts_db.rs:4129-4248 | The joint invariant of database and reader is kept by every background step and every step of the reader |
| `ReaderSafety.RunKeepsSystem` | gorchain/accounts-db/src/accounts_db.rs:4138-4239 | The joint invariant holds in every state of every run |
| `ProtocolInvariant.StepKeepsInvariant` | gorchain/accounts-db/src/accounts_db.rs:3341-3443 | Every step of flush (write storage, index key by key, drop the cache slot), of shrink (register, index key by key, replace, unregister) and of clean (take outdated and zero-lamport entries out of the index, also when a flush reclaims older slots; drop an emptied storage), and every write, freeze and new root, keeps the invariant that ties index, cache, maps and files to what was logically stored |
| `ProtocolInvariant.CopiesLogical` | gorchain/accounts-db/src/accounts_db.rs:5262-5365 | The account a flush or a shrink copies to the new storage is the one last stored under that key in that slot |
| `ProtocolInvariant.RemovingStep` | gorchain/accounts-db/src/accounts_db.rs:4817-4834 | Removing an index entry (a key outdated by a newer root, or a zero-lamport key without older rooted version) leaves every other version's standing as it was |
| `CleanDependencies.CalcDeleteDependencies` | gorchain/accounts-db/src/accounts_db.rs:1698-1796 | The store counts left are exactly those of slots not connected, through shared candidates, to an undeletable candidate; each is unchanged and zero; the worklist ends, in whatever order bins, keys and pending slots come |
| `CleanDependencies.RemoveConnected` | gorchain/accounts-db/src/accounts_db.rs:1740-1796 | The worklist of one undeletable candidate removes its whole connected component and nothing outside the doomed slots |
| `CleanDependencies.VisitCandidate` | gorchain/accounts-db/src/accounts_db.rs:1709-1739 | Judging a candidate against the counts already thinned out by earlier ones is as good as judging it against the original ones |
| `CleanDependencies.DoomedIsLeast` | gorchain/accounts-db/src/accounts_db.rs:1740-1796 | The doomed slots, defined by chains of candidates, are the least set that holds the slots of undeletable candidates and is closed under sharing a candidate |
| `CleanDependencies.DoomedSlotsAreClosed` | gorchain/accounts-db/src/accounts_db.rs:1740-1796 | The doomed slots are such a set themselves |
| `CleanDependencies.RemainingIsZero` | gorchain/accounts-db/src/accounts_db.rs:1709-1729 | A slot that is not doomed has count zero |
| `CleanDependencies.BinningDoesNotMatter` | gorchain/accounts-db/src/accounts_db.rs:1698-1708 | Which candidates are in which bin has no influence on what is doomed |
| `CleanSelection.BuildStoreCounts` | gorchain/accounts-db/src/accounts_db.rs:2381-2439 | The simulated counts: a slot is listed exactly when some candidate keeps it, its keys are exactly the candidates listing it, and its count is the storage's count less those candidates |
| `CleanSelection.RetainedMeaning` | gorchain/accounts-db/src/accounts_db.rs:2383-2411 | Which entries of a candidate are left: those not taken by slot for the key or by offset in the storage; ref counts are read again exactly for keys that lost slots |
| `CleanSelection.CountCandidate` | gorchain/accounts-db/src/accounts_db.rs:2389-2437 | Counting one candidate retains its live entries in order and takes one off each store it lists |
| `CleanSelection.FilterForSnapshots` | gorchain/accounts-db/src/accounts_db.rs:2737-2795 | A candidate is kept exactly when all its stores are in the counts with count zero and there is no full snapshot, or its newest slot is no later than that, or the max clean root is not (without one, clean goes to the last slot of all); those rejected only for the snapshot, and no others, join the deferred set with their newest slot |
| `CleanSelection.Judge` | gorchain/accounts-db/src/accounts_db.rs:2752-2790 | The decision for one candidate, both ways |
| `CleanSelection.SelectForPurge` | gorchain/accounts-db/src/accounts_db.rs:2381-2459 | The whole pass, exactly: what is left of each candidate's slot list and its ref count; a key is purged when it is a candidate none of whose slots is doomed in the simulated counts and there is no full snapshot, or its newest slot is no later than that, or the max clean root is not; the other spared keys are deferred with their newest slot, next to those deferred before. So every key kept has as many references as slots, all its stores at simulated count zero, and every store it is in dies whole: all accounts counted there belong to candidates that are purged or deferred |
| `CleanSelection.KeptIsDeletable` | gorchain/accounts-db/src/accounts_db.rs:1698-1796 | A candidate all of whose slots survived the closure has reference count equal to the length of its slot list |
| `CleanSelection.NeighbourSurvives` | gorchain/accounts-db/src/accounts_db.rs:1740-1796 | If one slot of a candidate survived, all its slots did |
| `CleanExample.PurgeLone` | gorchain/accounts-db/src/accounts_db.rs:2737-2795 | A lone candidate, alone in its storage, goes through the whole pass: purged without a full snapshot or up to it; beyond it purged exactly when the max clean root is not beyond it, and put off otherwise |
| `FlushClean.LatestSurvivesIff` | gorchain/accounts-db/src/accounts_db.rs:5205-5260 | For any bound at all, the exact condition under which the newest rooted version at or below it survives a flush: no newer version above the bound was flushed with cleaning while it was flushed too |
| `FlushClean.BelowMaxCleanRootIsLost` | gorchain/accounts-db/src/accounts_db.rs:5205-5260 | A concrete state in which a flush that cleans up to root 7 takes from a reader at 5 the only version it had |
| `FlushClean.NewestRootedUnchanged` | gorchain/accounts-db/src/accounts_db.rs:5205-5260 | At every bound at or above the max clean root the newest rooted version of every key is the same slot and the same account before and after |
| `FlushClean.MaxCleanRootCovers` | gorchain/accounts-db/src/accounts_db.rs:1836-1848 | Bounds at or above the max clean root are such bounds |
| `FlushedCache.RemovedMeaning` | gorchain/accounts-db/src/accounts_db.rs:5205-5220 | Which versions a call takes out of the index, in terms of its arguments: asked to clean, outdated by a flushed root no later than the requested root and the root of an ongoing scan |
| `FlushClean.OneVersionStored` | gorchain/accounts-db/src/accounts_db.rs:5262-5365 | Among the flushed slots at or below the max clean root at most one stores a version of any key |
| `FlushClean.StepFlushed` | gorchain/accounts-db/src/accounts_db.rs:5262-5365 | Flushing one more, lower slot extends the description of what the whole call did to cache, index, storage and roots |
| `FlushClean.SameAccount` | gorchain/accounts-db/src/accounts_db.rs:5262-5365 | Every version still indexed leads to the account it led to before |
| `FlushedCache.AccountsDb.FlushRootedAccountsCache` | gorchain/accounts-db/src/accounts_db.rs:5205-5260 | Flushes exactly the queued roots up to the request that are cached and not contended, keeps consistency, takes exactly the outdated versions out of the index, and leaves cache, index, storage and roots as the description says; the queue keeps the later roots; the max flushed root never falls |
| `FlushedCache.AccountsDb.FlushNewestFirst` | gorchain/accounts-db/src/accounts_db.rs:5222-5250 | The loop over roots from the highest down, with the shared set of keys already written |
| `FlushedCache.AccountsDb.DoFlushSlotCache` | gorchain/accounts-db/src/accounts_db.rs:5262-5365 | One slot: outdated keys leave the index, the others are stored and indexed, the cache slot goes last |
| `FlushedCache.AccountsDb.FlushSlotCacheWithClean` | gorchain/accounts-db/src/accounts_db.rs:5375-5421 | Flushes a slot that is not contended and is cached; leaves the contended set as it was |
| `FlushedCache.AccountsDb.ClearRoots` | gorchain/accounts-db/src/accounts_cache.rs:233-246 | Splits the queue of unflushed roots at the requested root |
| `FlushedCache.AccountsDb.SetMaxFlushRoot` | gorchain/accounts-db/src/accounts_cache.rs:274-276 | The highest root flushed is a running maximum |
| `FlushedCache.AccountsDb.PurgeSlotCachePubkeys` | gorchain/accounts-db/src/accounts_db.rs:4817-4834 | Takes the outdated keys of a slot out of the index, and the slot out of the roots when nothing of it is stored |
| `FlushedCache.AccountsDb.UpdateIndex` | gorchain/accounts-db/src/accounts_index/in_mem_accounts_index.rs:673-749 | Each stored key gets its new place; older entries are reclaimed when obsolete accounts are marked |
| `FlushedCache.AccountsDb.StoreCached` | gorchain/accounts-db/src/accounts_cache.rs:196-224 | Storing in the write cache keeps index and cache in agreement |
| `FlushedCache.SplitAccounts` | gorchain/accounts-db/src/accounts_db.rs:5283-5309 | Which keys of a slot are stored and which are outdated, and what counts as written afterwards |
| `SlotContention.ExactlyOneOwner` | gorchain/accounts-db/src/accounts_db.rs:4927-5001 | In every run a slot is under contention exactly when somebody owns it, and nobody shares it |
| `SlotContention.StepOwnership` | gorchain/accounts-db/src/accounts_db.rs:4940-5001 | In every run a flusher takes a slot exactly if nobody owns it and gives it back; a purger takes the slots nobody owns, on entering and on waking, and gives all back; nobody else gains or loses a slot |
| `SlotContention.PurgerState` | gorchain/accounts-db/src/accounts_db.rs:4940-4985 | In every run a purger goes on exactly when it owns all its slots; a notification wakes every waiting purger, and one that looked again in vain sleeps until the next |
| `SlotContention.FlusherState` | gorchain/accounts-db/src/accounts_db.rs:5375-5421 | In every run a flusher that gave its slot back owes a notification, and rests once it has given it |
| `SlotContention.PurgeExcludesFlush` | gorchain/accounts-db/src/accounts_db.rs:4927-5001 | In every run a slot being purged is neither being flushed nor purged by another purger |
| `SlotContention.ReleaseAssertionsHold` | gorchain/accounts-db/src/accounts_db.rs:5381-5420 | In every run a flusher or purger about to release its slots finds them in the set |
| `SlotContention.WaitingEnds` | gorchain/accounts-db/src/accounts_db.rs:4940-4985 | No wakeup is lost: a purger that waits while no flusher is active has been notified and will own all its slots |
| `SlotContention.AwaitedIsFlushed` | gorchain/accounts-db/src/accounts_db.rs:4940-4985 | A purger only ever waits for slots being flushed |
| `SlotContention.RunKeeps` | gorchain/accounts-db/src/accounts_db.rs:4927-5001 | The invariant behind these holds in every state of every run |
| `LockHistory.LocksMatchHolders` | gorchain/accounts-db/src/account_locks.rs:73-156 | In every run each count is the number of held transactions using that key in that mode, no zero is stored, and holders that conflict come from one relaxed call |
| `LockHistory.UnlockFindsLocks` | gorchain/accounts-db/src/account_locks.rs:120-156 | In every run an unlock finds every lock it gives back |
| `LockHistory.ReleasingAllEmpties` | gorchain/accounts-db/src/account_locks.rs:63-71 | In every run, releasing all holders in any order empties both tables |
| `LockHistory.DrainEmpties` | gorchain/accounts-db/src/account_locks.rs:120-156 | The same from any state in which the counts are those of the holders |
| `LockHistory.CanLockIff` | gorchain/accounts-db/src/account_locks.rs:73-98 | A transaction can be locked exactly when it conflicts with no holder |
| `LockHistory.SequentialExact` | gorchain/accounts-db/src/account_locks.rs:24-32 | Sequential mode accepts a transaction exactly when it conflicts with no holder and no earlier accepted one; rejections report the validation error or AccountInUse |
| `LockHistory.RelaxedExact` | gorchain/accounts-db/src/account_locks.rs:39-57 | Relaxed mode accepts a transaction exactly when it conflicts with no holder from before the batch |
| `LockHistory.RelaxedAcceptsMore` | gorchain/accounts-db/src/accounts.rs:517-527 | Relaxed mode accepts all that sequential mode accepts |
| `LockHistory.RelaxedIgnoresOrder` | gorchain/accounts-db/src/account_locks.rs:39-57 | Reordering a relaxed batch changes neither any transaction's result nor the locks held |
| `LockHistory.EventKeeps` | gorchain/accounts-db/src/accounts.rs:497-547 | Locking a batch in either mode and unlocking keep counts and compatibility |
| `BatchOutcome.OutcomeMeaning` | gorchain/accounts-db/src/accounts.rs:497-528 | The results and the counts of a lock call in terms of the transactions and the two maps: an earlier error, too many keys, a repeated key, an account in use, in this order; each count grows by how often the locked transactions use the account |
| `BatchOutcome.SequentialOutcome` | gorchain/accounts-db/src/account_locks.rs:24-32 | From any table, sequential mode accepts a transaction exactly when the table does not block it and no earlier accepted one conflicts with it |
| `LockTable.LockAllCounts` | gorchain/accounts-db/src/account_locks.rs:120-126 | Locking a transaction's keys adds, per key and mode, how often it occurs |
| `LockTable.UnlockAllCounts` | gorchain/accounts-db/src/account_locks.rs:128-156 | Unlocking takes the same off again |
| `AccountLocks.HasDuplicates` | gorchain/accounts-db/src/account_locks.rs:173-200 | Finds duplicates in both regimes, pairwise for short lists and by the reused set for long ones. Keys already in the set would be reported too, but a search leaves it empty, so one that starts with an empty set is exact |
| `AccountLocks.ValidateAccountLocks` | gorchain/accounts-db/src/account_locks.rs:160-171 | The first failing check in order: too many keys, then duplicates; the reused set is empty again |
| `AccountLocks.AccountLocks.TryLockTransactionBatch` | gorchain/accounts-db/src/account_locks.rs:39-57 | Relaxed batch: results against the table before the batch, then all accepted locks taken |
| `AccountLocks.AccountLocks.TryLockAccounts` | gorchain/accounts-db/src/account_locks.rs:24-32 | All keys or nothing |
| `AccountLocks.AccountLocks.LockBatch` | gorchain/accounts-db/src/accounts.rs:497-528 | For any earlier results: each transaction gets its earlier error, TooManyAccountLocks, AccountLoadedTwice, AccountInUse or Ok, in this order, AccountInUse exactly if a lock held blocks it or, in sequential mode, an earlier locked transaction of the batch does; each count grows by the uses in the locked transactions |
| `AccountLocks.AccountLocks.UnlockBatch` | gorchain/accounts-db/src/accounts.rs:531-547 | Unlocks exactly the transactions whose locking succeeded |
| `StorageReader.AccountStorageReader.Read` | gorchain/accounts-db/src/account_storage_reader.rs:78-128 | Delivers as many of the remaining live bytes as fit, in order, leaves the rest of the buffer alone, and returns zero for a non-empty buffer only when nothing is left; whatever short reads the file gives |
| `StorageReader.AccountStorageReader.ReadWithBuffers` | gorchain/accounts-db/src/account_storage_reader.rs:78-128 | Any sequence of buffer sizes delivers the live bytes without loss or repetition |
| `StorageReader.AccountStorageReader.constructor` | gorchain/accounts-db/src/account_storage_reader.rs:28-66 | The reads will deliver, in order, exactly the bytes of the file that belong to no account marked obsolete by the slot, or ever if none is given; the announced length is their number |
| `StorageReader.DeadIsObsolete` | gorchain/accounts-db/src/accounts_db.rs:1066-1074 | A byte is in a dead range exactly when a mark no later than the slot covers it: its header, its data or what fills the last eight bytes up |
| `StorageReader.StoredSizeMeaning` | gorchain/accounts-db/src/append_vec.rs:70-72 | The stored size is 136 and the data length, rounded up to eight |
| `StorageReader.SurvivorsLength` | gorchain/accounts-db/src/accounts_db.rs:1079-1091 | The live bytes are the file's length less the obsolete bytes, the last range cut off at the end of the file |
| `StorageReader.SortKeepsPlacement` | gorchain/accounts-db/src/account_storage_reader.rs:50-51 | Sorting by descending offset keeps the ranges and makes the lowest the top of the stack |
| `StorageReader.DeadBytesOfPermutation` | gorchain/accounts-db/src/accounts_db.rs:1079-1091 | The obsolete bytes do not depend on the order of the marks |
| `StorageEntries.StorageEntry.Store` | gorchain/accounts-db/src/accounts_db.rs:6306-6363 | Stored accounts become live at new, distinct offsets; count and alive bytes stay those of the live accounts; stops only at an account that does not fit; marks stay valid exactly unless a full, empty storage is reset with marks left |
| `StorageEntries.StorageEntry.RemoveDead` | gorchain/accounts-db/src/accounts_db.rs:5838-5885 | Removing live offsets keeps the counters exact, by the shortcut as by summing sizes; zero remaining means nothing is live; the offsets are marked obsolete if asked, unless all go at once; marks stay right exactly unless a full storage is emptied with marks left, which NeverFull excludes |
| `StorageEntries.StorageEntry.RemoveAccounts` | gorchain/accounts-db/src/accounts_db.rs:1159-1192 | The counters after removal and the reset of a full storage that becomes empty |
| `StorageEntries.StorageEntry.SetStatus` | gorchain/accounts-db/src/accounts_db.rs:1016-1035 | Full is refused for an empty storage, which is reset instead; counters stay exact |
| `StorageEntries.StorageEntry.AppendAccounts` | gorchain/accounts-db/src/append_vec.rs:1231-1300 | Accounts go one after the other to aligned offsets; the size reported is the sum of their stored sizes |
| `StorageEntries.StorageEntry.GetAccountDataLens` | gorchain/accounts-db/src/append_vec.rs:1081-1100 | Finds the data length of every account asked for |
| `StorageEntries.OffsetsApart` | gorchain/accounts-db/src/append_vec.rs:70-72 | Accounts in a file never overlap |
| `StorageEntries.MarksAreWellPlaced` | gorchain/accounts-db/src/accounts_db.rs:1051-1077 | Marks made by reclaims are distinct, inside the file and apart: what the storage reader relies on |
| `StorageEntries.ResetKeepsNoMark` | gorchain/accounts-db/src/append_vec.rs:361-366 | A mark that survives a reset refers to no account |
| `StorageWrites.AccountStorage.WriteAccounts` | gorchain/accounts-db/src/accounts_db.rs:6306-6363 | A write completes exactly when the file can hold all accounts after those in it, or in their place if none is live and the first does not fit, and no shrink is in progress in the second case. Then all are stored and live, and marks agree with the file exactly unless it was reset under them. Otherwise an assertion fails, a known one, with the accounts before the refused one stored. Each account gets its own zero-lamport flag because no two attempts store accounts |
| `StorageWrites.AccountStorage.HasSpaceAvailable` | gorchain/accounts-db/src/accounts_db.rs:4600-4608 | Whether the slot's storage is available and has that many bytes left; panics during a shrink or without a storage |
| `StorageWrites.AccountStorage.Insert` | gorchain/accounts-db/src/account_storage.rs:156-162 | Replaces the storage of a slot that has one, and then panics |
| `StorageWrites.AttemptStores` | gorchain/accounts-db/src/accounts_db.rs:6316-6352 | Only one attempt of a write stores accounts |
| `StorageWrites.RoomForAll` | gorchain/accounts-db/src/accounts_db.rs:5318-5322 | A storage with room for the stored sizes of all accounts takes them all without a reset |
| `StorageWrites.TooSmall` | gorchain/accounts-db/src/accounts_db.rs:6321-6341 | A concrete write that fails: two accounts for a storage of 136 bytes |
| `StorageWrites.NeverFull` | gorchain/accounts-db/src/accounts_db.rs:1016-1035 | In every life of completed writes and reclaims a storage is never marked full, so no reclaim resets its file |
| `StorageWrites.MarksAgreeIff` | gorchain/accounts-db/src/accounts_db.rs:1018-1031 | In every such life the marks agree with the file all along exactly as long as no write resets it under marks |
| `StorageWrites.OldMarksAreStale` | gorchain/accounts-db/src/accounts_db.rs:1029-1029 | In a file written anew no mark from before is right: all its accounts are live |
| `StorageWrites.StaleMark` | gorchain/accounts-db/src/accounts_db.rs:1018-1031 | A concrete storage whose completed second write puts a live account where an old mark points |
| `DeadAccounts.RemoveDeadAccounts` | gorchain/accounts-db/src/accounts_db.rs:5805-5924 | Every storage loses exactly its reclaimed offsets and keeps exact counters; they are marked obsolete if asked, unless all go at once, and the marks of each storage agree with its file exactly unless a full storage is emptied with marks left; an untouched storage stays as it is; a slot is reported dead exactly when it was touched and nothing in it is live |
| `StartupHash.StartupHashes` | gorchain/accounts-db/src/accounts_db.rs:5461-5591 | The hash from the storages equals the hash from the index as it is by then, and each of its elements is the sum, modulo 65536, of that element of the account hash over the versions with lamports that are the newest of their key: with duplicates mixed out, or with older versions marked obsolete and taken out of the index; for any assignment of storages and keys to threads |
| `StartupHash.StartupDataLen` | gorchain/accounts-db/src/accounts_db.rs:7076-7076 | Total data length less that of duplicates is the sum of the data lengths of the versions with lamports that are the newest of their key |
| `StartupHash.VisitAllDuplicates` | gorchain/accounts-db/src/accounts_db.rs:7305-7371 | Visiting duplicate keys in chunks finds the data length, the number and the hash of exactly the older versions |
| `StartupHash.HashFromIndex` | gorchain/accounts-db/src/accounts_db.rs:5461-5518 | The index scan adds up the newest version of every key |
| `StartupHash.MarkingMatches` | gorchain/accounts-db/src/accounts_db.rs:7150-7184 | Marking older versions at startup, and removing unmarked the storages that hold nothing else, leaves one storage a slot and a scan of exactly the newest versions |
| `StartupHash.CleanSlotLists` | gorchain/accounts-db/src/accounts_index.rs:1606-1673 | Cuts the slot lists of the keys with duplicates down to their highest slot, which leaves every slot list with only that |
| `StartupHash.NewestAreIndexed` | gorchain/accounts-db/src/accounts_index.rs:1606-1646 | What is left of the index is the index of the newest versions |
| `StartupHash.UnmarkedMatches` | gorchain/accounts-db/src/accounts_db.rs:5550-5575 | Without marks a scan takes every version |
| `StartupHash.DuplicatesCancel` | gorchain/accounts-db/src/accounts_db.rs:5527-5591 | All versions less the older ones are the newest ones, as sums |
| `StartupScan.HashFromStorages` | gorchain/accounts-db/src/accounts_db.rs:5527-5591 | The storage scan adds up every version not marked obsolete by the startup slot, whichever thread scanned which storage |
| `StartupScan.DataLenFromStorages` | gorchain/accounts-db/src/accounts_db.rs:6626-6748 | Index generation adds up the data of every version with lamports |
| `StartupScan.ScannedStillCounts` | gorchain/accounts-db/src/accounts_db.rs:5540-5561 | A scan takes exactly the versions in the storages that no mark up to the startup slot covers |
| `StartupTotals.HashOfSum` | gorchain/accounts-db/src/accounts_db.rs:5005-5013 | Each element of a sum of account hashes is the sum over the versions with lamports, modulo 65536 |
| `StartupTotals.DataOfSum` | gorchain/accounts-db/src/accounts_db.rs:7345-7349 | The data length of a sum is that of the versions with lamports |
| `LatticeHash.MixIn` | gorchain/lattice-hash/src/lt_hash.rs:37-41 | In place, element by element with wrap-around |
| `LatticeHash.MixOut` | gorchain/lattice-hash/src/lt_hash.rs:46-50 | Undoes MixIn |
| `LatticeHash.SumTakeOut` | gorchain/lattice-hash/src/lt_hash.rs:37-50 | Sums of versions do not depend on order |
| `LatticeHash.SumDifference` | gorchain/lattice-hash/src/lt_hash.rs:46-50 | Mixing out a part leaves the sum of the rest |
| `CrateOrder.PublishingOrder` | gorchain/ci/order-crates-for-publishing.py:110-152 | Succeeds exactly when the workspace's dependency graph has no cycle, so the squared budget never runs out on an acyclic one; then every crate comes once, after all the workspace crates it needs. Otherwise it reports all mutual pairs or, without any, crates that all wait for one another |
| `CrateOrder.OrderedIsAcyclic` | gorchain/ci/order-crates-for-publishing.py:130-152 | A publishing order rules out cycles |
| `CrateOrder.StuckIsCyclic` | gorchain/ci/order-crates-for-publishing.py:133-137 | Crates that all wait for one another hold a cycle |
| `CrateOrder.RoundKeepsOrder` | gorchain/ci/order-crates-for-publishing.py:139-150 | One round extends the order by crates whose needs are all ordered |
| `CrateOrder.MutualPairs` | gorchain/ci/order-crates-for-publishing.py:111-115 | Finds exactly the pairs of crates that need each other, a crate that needs itself included |
| `StorageOrderer.SelectTakesEnds` | gorchain/accounts-db/src/account_storage.rs:416-433 | The closed formula is a queue taken from both ends: a turn gets the lowest or the highest value no earlier turn took |
| `StorageOrderer.SelectIsInjective` | gorchain/accounts-db/src/account_storage.rs:416-433 | Different turns get different values |
| `StorageOrderer.SelectIsOnto` | gorchain/accounts-db/src/account_storage.rs:416-433 | Every value of the range is some turn's |
| `StorageOrderer.SelectInRange` | gorchain/accounts-db/src/account_storage.rs:416-433 | Every turn's value is in the range, so no subtraction underflows |
| `StorageOrderer.WithSmallToLargeRatio` | gorchain/accounts-db/src/account_storage.rs:327-341 | The interleaved order is a permutation: the selector applied to the indices sorted by capacity |
| `StorageAlternation.AlternationIff` | gorchain/accounts-db/src/account_storage.rs:323-341 | The documented alternation of small and large capacities is sure, at every rate and however the sort orders ties, exactly for at most two storages, strictly increasing capacities or equal ones |
| `StorageAlternation.LastSettles` | gorchain/accounts-db/src/account_storage.rs:331-336 | Where alternation holds at every rate, the place the sort gives to the last storage determines all capacities from the sorted ones |
| `StorageAlternation.LastInPlace` | gorchain/accounts-db/src/account_storage.rs:331-336 | Where alternation is sure, the sort leaves the last of at least three storages in place unless all are equal |
| `StorageAlternation.UnsortedDoesNotAlternate` | gorchain/accounts-db/src/account_storage.rs:333-336 | It fails in general: a concrete input on which the first storage is not the smallest |
| `StorageOrderer.ConcurrentConsumer.Consume` | gorchain/accounts-db/src/account_storage.rs:400-407 | For any schedule of any number of threads, together they received a prefix of the order, each entry once |
| `StorageOrderer.DealStorages` | gorchain/accounts-db/src/account_storage.rs:400-407 | Once drained, every storage went to exactly one thread, which is what the startup hash asks of its threads |
| `SortDedup.SortAndRemoveDups` | gorchain/accounts-db/src/accounts_db.rs:2998-3016 | Leaves the sorted accounts with the last of each key, in place, and returns how many were removed |
| `SortDedup.DeduplicatedMeaning` | gorchain/accounts-db/src/accounts_db.rs:2998-3016 | Keys strictly increase, and an account is kept exactly when it is the last original occurrence of its key |
| `SortDedup.KeysAreKept` | gorchain/accounts-db/src/accounts_db.rs:2998-3016 | The set of keys is unchanged |
| `SortDedup.SortMeaning` | gorchain/accounts-db/src/accounts_db.rs:2999-3000 | The sort orders by key and is stable |
| `BlockhashQueues.BlockhashQueue.RegisterHash` | gorchain/accounts-db/src/blockhash_queue.rs:108-126 | Keeps the window: entries tell of the last registration of their hash, none of the last max_age + 1 is missing, at most max_age + 1 are held; with few entries none is dropped, with many all that are too old are |
| `BlockhashQueues.BlockhashQueue.GenesisHash` | gorchain/accounts-db/src/blockhash_queue.rs:91-102 | The same for the first hash, with index zero |
| `BlockhashQueues.BlockhashQueue.GetHashInfoIfValid` | gorchain/accounts-db/src/blockhash_queue.rs:79-83 | For ages up to max_age a hash is valid exactly when it is among the last age + 1 registered; the info is that of its last registration |
| `BlockhashQueues.BlockhashQueue.GetHashAge` | gorchain/accounts-db/src/blockhash_queue.rs:85-89 | The age counts registrations since the last one of that hash; the subtraction never underflows |
| `BlockhashQueues.RetainedIsBounded` | gorchain/accounts-db/src/blockhash_queue.rs:109-114 | After dropping old entries at most max_age are left |
| `TokenAmount.PrintedReadsBack` | gorchain/account-decoder-client-types/src/token.rs:36-47 | The printed string reads back as the amount with the point `decimals` places from the right |
| `TokenAmount.PrintedIsCanonical` | gorchain/account-decoder-client-types/src/token.rs:36-47 | A whole part of more than one digit does not begin with zero, and only decimal digits and the point are printed |
| `TokenAmount.TrimmedReadsBack` | gorchain/account-decoder-client-types/src/token.rs:49-56 | The trimmed string reads as the same number, with no zero at the end of a fraction and no bare point |
| `TokenAmount.TrimmedKeepsWhole` | gorchain/account-decoder-client-types/src/token.rs:49-56 | Trimming only cuts an end off and never touches the integer part |
| `TokenAmount.TrimmedIsInjective` | gorchain/account-decoder-client-types/src/token.rs:49-56 | Different amounts with the same decimals print differently |

## Left out

- ReaderSafety.ReaderIsSafe: covers a reader with the FixedMaxRoot hint, during whose read no slot becomes a root and nobody writes the key in one of the reader's slots, as the account locks see to; the other hint falls back to a slow path that holds the index lock.
- The purger of abandoned, unrooted slots is not in the race; the drawing in the code grants that a reader of such a slot may give up.
- ReaderSafety.NothingIndexed: a shrink drops a zero-lamport key only when no older root has it in the index; the code tests the reference count for it, and `SingleReference.SingleRefIsOldest` states when the two agree. Reference counts themselves are not in the race model.
- The race model allows more interleavings than the code: shrinks of one slot and flushes of others are not kept apart by the assertion that no shrink is in progress.
- FlushedCache.AccountsDb.StoreCached: does not model the size and count statistics of the write cache.
- StorageWrites.AccountStorage.WriteAccounts: writes to the storage that the map has for the slot or, while a shrink is in progress, to any; these are the storages its callers pass.
- StartupHash.StartupHashes: the hash of a funded account is an arbitrary function of key and account, since Blake3 is library code, and an account is its lamports and its data; all storages are at or below the startup slot, as they are after loading a snapshot.
- CrateOrder.PublishingOrder: starts from the dependency graph; reading cargo metadata and the check of dev-dependencies on the crate itself are not modelled.
- TokenAmount.PrintedReadsBack: the f64 amount of the user interface is not modelled.
- Concurrent purgers of one storage in DeadAccounts: reclaims are removed by one thread at a time.
- Internals of the accounts index (disk buckets, reference counts in flight, secondary indexes), of append vecs beyond their layout, of tiered storage and of the read-only cache.
- Floating-point choice of shrink candidates and packing of ancient slots.
- I/O errors, metrics, logging, Geyser notifications, thread pools, clocks (a timestamp is a parameter).
- The account decoders, ledger tools, benchmarks and build scripts.
