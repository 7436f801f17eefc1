/** The lock methods, on the two maps they update, proved against module LockTable. */
module AccountLocks {
  import opened Types
  import opened LockTable
  import opened LockHistory
  import opened BatchOutcome

  const USE_ACCOUNT_LOCK_SET_SIZE: nat := 32

  /** The set of keys that a thread reuses from one search to the next. */
  class KeySet {
    var keys: set<Pubkey>

    constructor ()
      ensures keys == {}
    {
      keys := {};
    }
  }

  /** Some key is in the set that a long list is searched with. */
  ghost predicate FoundIn(keys: Keys, found: set<Pubkey>) {
    |keys| >= USE_ACCOUNT_LOCK_SET_SIZE && exists i :: 0 <= i < |keys| && keys[i].key in found
  }

  /**
   * The reused set for many keys, a pairwise comparison for few. The search is exact because the set, empty at
   * first, is left empty by every search: keys left in it would be taken for duplicates.
   */
  method HasDuplicates(keys: Keys, reused: KeySet) returns (duplicate: bool)
    modifies reused
    ensures duplicate <==> HasDuplicateKeys(keys) || FoundIn(keys, old(reused.keys))
    ensures reused.keys == if |keys| >= USE_ACCOUNT_LOCK_SET_SIZE then {} else old(reused.keys)
  {
    if |keys| >= USE_ACCOUNT_LOCK_SET_SIZE {
      duplicate := false;
      var i := 0;
      while i < |keys| && !duplicate
        invariant 0 <= i <= |keys|
        invariant !duplicate ==>
                  forall k :: k in reused.keys <==> k in old(reused.keys) || exists j :: 0 <= j < i && keys[j].key == k
        invariant !duplicate ==> forall x :: 0 <= x < i ==> keys[x].key !in old(reused.keys)
        invariant !duplicate ==> forall x, y :: 0 <= x < y < i ==> keys[x].key != keys[y].key
        invariant duplicate ==> HasDuplicateKeys(keys) || FoundIn(keys, old(reused.keys))
        decreases |keys| - i
      {
        duplicate := keys[i].key in reused.keys;
        reused.keys := reused.keys + {keys[i].key};
        i := i + 1;
      }
      reused.keys := {};
      return;
    }
    for i := 0 to |keys|
      invariant forall x, y :: 0 <= x < y < |keys| && x < i ==> keys[x].key != keys[y].key
      invariant reused.keys == old(reused.keys)
    {
      for j := i + 1 to |keys|
        invariant forall y :: i < y < j ==> keys[i].key != keys[y].key
        invariant reused.keys == old(reused.keys)
      {
        if keys[i].key == keys[j].key {
          return true;
        }
      }
    }
    return false;
  }

  /** Too many accounts is reported before a repeated account. */
  method ValidateAccountLocks(keys: Keys, limit: nat, reused: KeySet) returns (r: Result)
    requires reused.keys == {}
    modifies reused
    ensures r == if |keys| > limit then Err(TooManyAccountLocks)
                 else if HasDuplicateKeys(keys) then Err(AccountLoadedTwice) else Ok
    ensures r.Ok? ==> DistinctKeys(keys)
    ensures reused.keys == {}
  {
    if |keys| > limit {
      return Err(TooManyAccountLocks);
    }
    var duplicate := HasDuplicates(keys, reused);
    return if duplicate then Err(AccountLoadedTwice) else Ok;
  }

  /** Validate the transactions that nothing is known against. */
  method ValidateBatch(txs: seq<Keys>, prior: seq<Result>, limit: nat, reused: KeySet)
    returns (batch: seq<Validated>)
    requires reused.keys == {}
    modifies reused
    ensures reused.keys == {} && |batch| == Min(|txs|, |prior|)
    ensures IsValidated(txs, prior, limit, batch) && AllDistinct(batch)
  {
    batch := [];
    for i := 0 to Min(|txs|, |prior|)
      invariant reused.keys == {} && |batch| == i && IsValidated(txs, prior, limit, batch)
    {
      var r := prior[i];
      if r.Ok? {
        r := ValidateAccountLocks(txs[i], limit, reused);
      }
      batch := batch + [if r.Ok? then Keyed(txs[i]) else Rejected(r.error)];
    }
  }

  class AccountLocks {
    var writeLocks: map<Pubkey, nat>
    var readonlyLocks: map<Pubkey, nat>

    constructor ()
      ensures View() == EMPTY
    {
      writeLocks, readonlyLocks := map[], map[];
    }

    function View(): (t: Table)
      reads this
    {
      Table(writeLocks, readonlyLocks)
    }

    method CanLockAccounts(keys: Keys) returns (r: Result)
      ensures r == if CanLockAll(View(), keys) then Ok else Err(AccountInUse)
    {
      for i := 0 to |keys|
        invariant forall j :: 0 <= j < i ==> CanLock(View(), keys[j])
      {
        var k := keys[i].key;
        var lockedWrite := k in writeLocks && writeLocks[k] > 0;
        var lockedRead := k in readonlyLocks && readonlyLocks[k] > 0;
        if keys[i].writable {
          if lockedRead || lockedWrite {
            return Err(AccountInUse);
          }
        } else if lockedWrite {
          return Err(AccountInUse);
        }
      }
      return Ok;
    }

    method LockAccounts(keys: Keys)
      modifies this
      ensures View() == LockAll(old(View()), keys)
    {
      for i := 0 to |keys|
        invariant View() == LockAll(old(View()), keys[..i])
      {
        assert keys[..i + 1][..i] == keys[..i];
        var k := keys[i].key;
        if keys[i].writable {
          writeLocks := writeLocks[k := (if k in writeLocks then writeLocks[k] else 0) + 1];
        } else {
          readonlyLocks := readonlyLocks[k := (if k in readonlyLocks then readonlyLocks[k] else 0) + 1];
        }
      }
      assert keys[..|keys|] == keys;
    }

    /** Give back locks that are held; every decrement finds a positive count. */
    method UnlockAccounts(keys: Keys)
      requires NoZeros(View()) && forall a :: Occurs(keys, a) <= View().Count(a)
      modifies this
      ensures View() == UnlockAll(old(View()), keys)
    {
      ghost var before := View();
      for i := 0 to |keys|
        invariant View() == UnlockAll(before, keys[..i])
      {
        assert keys[..i + 1][..i] == keys[..i];
        LockIsHeld(before, keys, i);
        var k := keys[i].key;
        if keys[i].writable {
          assert k in writeLocks && writeLocks[k] > 0;
          writeLocks := if writeLocks[k] == 1 then writeLocks - {k} else writeLocks[k := writeLocks[k] - 1];
        } else {
          assert k in readonlyLocks && readonlyLocks[k] > 0;
          readonlyLocks := if readonlyLocks[k] == 1 then readonlyLocks - {k}
            else readonlyLocks[k := readonlyLocks[k] - 1];
        }
      }
      assert keys[..|keys|] == keys;
    }

    method TryLockAccounts(keys: Keys) returns (r: Result)
      modifies this
      ensures r == Judge(old(View()), Keyed(keys))
      ensures View() == LockIf(old(View()), Keyed(keys), r)
    {
      r := CanLockAccounts(keys);
      if r.Ok? {
        LockAccounts(keys);
      }
    }

    /** Judge the whole batch first, then lock what passed. */
    method TryLockTransactionBatch(batch: seq<Validated>) returns (results: seq<Result>)
      modifies this
      ensures results == RelaxedResults(old(View()), batch)
      ensures View() == LockAccepted(old(View()), batch, results)
    {
      results := [];
      for i := 0 to |batch|
        invariant View() == old(View()) && |results| == i
        invariant forall j :: 0 <= j < i ==> results[j] == Judge(old(View()), batch[j])
      {
        var r;
        match batch[i] {
          case Rejected(e) => r := Err(e);
          case Keyed(keys) => r := CanLockAccounts(keys);
        }
        results := results + [r];
      }
      for i := 0 to |batch|
        invariant View() == LockAccepted(old(View()), batch[..i], results[..i])
      {
        assert batch[..i + 1][..i] == batch[..i] && results[..i + 1][..i] == results[..i];
        if batch[i].Keyed? && results[i].Ok? {
          LockAccounts(batch[i].keys);
        }
      }
      assert batch[..|batch|] == batch && results[..|batch|] == results;
    }

    /** Lock a validated batch in one of the two modes. */
    method LockValidated(batch: seq<Validated>, relaxed: bool) returns (results: seq<Result>)
      modifies this
      ensures results == BatchResults(old(View()), batch, relaxed)
      ensures View() == LockAccepted(old(View()), batch, results)
    {
      if relaxed {
        results := TryLockTransactionBatch(batch);
        return;
      }
      results := [];
      for i := 0 to |batch|
        invariant results == SequentialResults(old(View()), batch[..i])
        invariant View() == LockAccepted(old(View()), batch[..i], results)
      {
        assert batch[..i + 1][..i] == batch[..i];
        var r;
        match batch[i] {
          case Rejected(e) => r := Err(e);
          case Keyed(keys) => r := TryLockAccounts(keys);
        }
        assert (results + [r])[..i] == results;
        results := results + [r];
      }
      assert batch[..|batch|] == batch;
    }

    /** Validate the transactions, then lock the batch in one of the two modes. */
    method LockBatch(txs: seq<Keys>, prior: seq<Result>, limit: nat, relaxed: bool, reused: KeySet)
      returns (results: seq<Result>, ghost batch: seq<Validated>)
      requires reused.keys == {}
      modifies this, reused
      ensures reused.keys == {}
      ensures Outcome(old(View()), View(), txs, prior, limit, relaxed, results)
      ensures IsValidated(txs, prior, limit, batch) && AllDistinct(batch)
      ensures results == BatchResults(old(View()), batch, relaxed)
      ensures View() == LockAccepted(old(View()), batch, results)
    {
      var validated := ValidateBatch(txs, prior, limit, reused);
      batch := validated;
      OutcomeMeaning(View(), txs, prior, limit, relaxed, validated);
      results := LockValidated(validated, relaxed);
    }

    /** Give back the locks of the transactions that were locked, in batch order. */
    method UnlockBatch(txs: seq<Keys>, results: seq<Result>)
      requires |txs| == |results| && NoZeros(View())
      requires forall a :: LocksTaken(txs, results, a) <= View().Count(a)
      modifies this
      ensures NoZeros(View()) && forall a :: View().Count(a) == old(View()).Count(a) - LocksTaken(txs, results, a)
    {
      if forall i :: 0 <= i < |results| ==> !results[i].Ok? {
        forall a ensures LocksTaken(txs, results, a) == 0 { NoneTaken(txs, results, a); }
        return;
      }
      ghost var before := View();
      for i := 0 to |txs|
        invariant NoZeros(View()) && forall a :: View().Count(a) == before.Count(a) - LocksTaken(txs, results[..i], a)
      {
        assert results[..i + 1][..i] == results[..i];
        forall a ensures LocksTaken(txs, results[..i + 1], a) <= before.Count(a) {
          TakenInPrefix(txs, results, i + 1, a);
        }
        if results[i].Ok? {
          ghost var t := View();
          forall a ensures Occurs(txs[i], a) == multiset(txs[i])[a] <= t.Count(a) {
            OccursIsMultiplicity(txs[i], a);
            assert LocksTaken(txs, results[..i + 1], a) == LocksTaken(txs, results[..i], a) + multiset(txs[i])[a];
          }
          UnlockAccounts(txs[i]);
          forall a ensures View().Count(a) == t.Count(a) - Occurs(txs[i], a) { UnlockAllCounts(t, txs[i], a); }
          UnlockAllCounts(t, txs[i], Access(0, true));
        }
      }
      assert results[..|txs|] == results;
    }
  }

  lemma LockIsHeld(t: Table, keys: Keys, i: nat)
    requires NoZeros(t) && i < |keys| && forall a :: Occurs(keys, a) <= t.Count(a)
    ensures UnlockAll(t, keys[..i]).Count(keys[i]) > 0
  {
    forall a ensures Occurs(keys[..i], a) <= Occurs(keys, a) { OccursInPrefix(keys, i, a); }
    UnlockAllCounts(t, keys[..i], keys[i]);
    OccursInPrefix(keys, i + 1, keys[i]);
    assert keys[..i + 1][..i] == keys[..i];
  }

  lemma {:induction false} OccursInPrefix(keys: Keys, i: nat, a: Access)
    requires i <= |keys|
    ensures Occurs(keys[..i], a) <= Occurs(keys, a)
    decreases |keys| - i
  {
    if i < |keys| {
      OccursInPrefix(keys, i + 1, a);
      assert keys[..i + 1][..i] == keys[..i];
    } else {
      assert keys[..i] == keys;
    }
  }
}
