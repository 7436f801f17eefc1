/** What a lock call does to a batch of transactions, told on the transactions and the two maps alone. */
module BatchOutcome {
  import opened Types
  import opened LockTable
  import opened LockHistory

  /** Somebody holds a lock that excludes one of the accesses. */
  ghost predicate Blocked(t: Table, keys: Keys) {
    exists i :: 0 <= i < |keys| && (IsHeld(t.writeLocks, keys[i].key)
                                    || (keys[i].writable && IsHeld(t.readonlyLocks, keys[i].key)))
  }

  ghost predicate IsHeld(locks: map<Pubkey, nat>, k: Pubkey) {
    k in locks && locks[k] > 0
  }

  ghost predicate HasDuplicateKeys(keys: Keys) {
    exists i, j :: 0 <= i < j < |keys| && keys[i].key == keys[j].key
  }

  /** An earlier transaction of the batch was locked and excludes this one. */
  ghost predicate Overtaken(txs: seq<Keys>, results: seq<Result>, i: nat)
    requires i < |txs| && i <= |results|
  {
    exists j :: 0 <= j < i && results[j].Ok? && Conflict(txs[j], txs[i])
  }

  /**
    The result of a transaction: what went wrong before, or too many accounts, or an account twice, or an account in
    use, in this order.  Only sequential locking looks at the batch itself.
  */
  ghost function ResultOf(t: Table, txs: seq<Keys>, prior: seq<Result>, limit: nat, relaxed: bool,
                          results: seq<Result>, i: nat): (r: Result)
    requires i < |txs| && i < |prior| && i <= |results|
  {
    if prior[i].Err? then prior[i]
    else if |txs[i]| > limit then Err(TooManyAccountLocks)
    else if HasDuplicateKeys(txs[i]) then Err(AccountLoadedTwice)
    else if Blocked(t, txs[i]) || (!relaxed && Overtaken(txs, results, i)) then Err(AccountInUse)
    else Ok
  }

  /** How often the locked transactions use an account in one mode. */
  ghost function LocksTaken(txs: seq<Keys>, results: seq<Result>, a: Access): (n: nat)
    requires |results| <= |txs|
  {
    if results == [] then 0
    else
      var n := |results| - 1;
      LocksTaken(txs, results[..n], a) + if results[n].Ok? then multiset(txs[n])[a] else 0
  }

  lemma {:induction false} NoneTaken(txs: seq<Keys>, results: seq<Result>, a: Access)
    requires |results| <= |txs| && forall i :: 0 <= i < |results| ==> !results[i].Ok?
    ensures LocksTaken(txs, results, a) == 0
  {
    if results != [] { NoneTaken(txs, results[..|results| - 1], a); }
  }

  lemma {:induction false} TakenInPrefix(txs: seq<Keys>, results: seq<Result>, i: nat, a: Access)
    requires |results| <= |txs| && i <= |results|
    ensures LocksTaken(txs, results[..i], a) <= LocksTaken(txs, results, a)
    decreases |results| - i
  {
    if i < |results| {
      TakenInPrefix(txs, results, i + 1, a);
      assert results[..i + 1][..i] == results[..i];
    } else {
      assert results[..i] == results;
    }
  }

  ghost predicate Outcome(before: Table, after: Table, txs: seq<Keys>, prior: seq<Result>, limit: nat, relaxed: bool,
                          results: seq<Result>) {
    && |results| <= |txs| && |results| <= |prior| && (|results| == |txs| || |results| == |prior|)
    && (forall i :: 0 <= i < |results| ==>
          results[i] == ResultOf(before, txs, prior, limit, relaxed, results, i))
    && (forall a :: after.Count(a) == before.Count(a) + LocksTaken(txs, results, a))
  }

  // ----- Why the specification on the table says the same -----

  lemma {:induction false} OccursIsMultiplicity(keys: Keys, a: Access)
    ensures Occurs(keys, a) == multiset(keys)[a]
  {
    if keys != [] {
      OccursIsMultiplicity(keys[..|keys| - 1], a);
      assert keys == keys[..|keys| - 1] + [keys[|keys| - 1]];
    }
  }

  lemma FreeMeaning(t: Table, keys: Keys)
    ensures CanLockAll(t, keys) <==> !Blocked(t, keys)
  {
    forall i | 0 <= i < |keys|
      ensures CanLock(t, keys[i]) <==> !(IsHeld(t.writeLocks, keys[i].key)
                                         || (keys[i].writable && IsHeld(t.readonlyLocks, keys[i].key)))
    {
    }
  }

  lemma UsedMeaning(keys: Keys, a: Access)
    ensures Occurs(keys, a) > 0 <==> Uses(keys, a)
  {
    OccursIsMultiplicity(keys, a);
    assert a in multiset(keys) <==> a in keys;
  }

  /** Locking a transaction blocks exactly those that conflict with it. */
  lemma LockingBlocks(t: Table, held: Keys, keys: Keys)
    ensures CanLockAll(LockAll(t, held), keys) <==> CanLockAll(t, keys) && !Conflict(held, keys)
  {
    var t' := LockAll(t, held);
    forall a ensures t'.Count(a) == 0 <==> t.Count(a) == 0 && !Uses(held, a) {
      LockAllCounts(t, held, a);
      UsedMeaning(held, a);
    }
    if CanLockAll(t', keys) {
      forall i | 0 <= i < |keys| ensures CanLock(t, keys[i]) { assert CanLock(t', keys[i]); }
      forall k ensures !ConflictOn(held, keys, k) { NotBlockedOn(t', held, keys, k); }
    } else if CanLockAll(t, keys) {
      var i :| 0 <= i < |keys| && !CanLock(t', keys[i]);
      assert CanLock(t, keys[i]) && Uses(keys, keys[i]);
      assert ConflictOn(held, keys, keys[i].key);
    }
  }

  lemma NotBlockedOn(t': Table, held: Keys, keys: Keys, k: Pubkey)
    requires CanLockAll(t', keys) && forall a :: t'.Count(a) == 0 ==> !Uses(held, a)
    ensures !ConflictOn(held, keys, k)
  {
    forall writable: bool | Uses(keys, Access(k, writable))
      ensures !Uses(held, Access(k, true)) && (writable ==> !Uses(held, Access(k, false)))
    {
      var i :| 0 <= i < |keys| && keys[i] == Access(k, writable);
      assert CanLock(t', keys[i]);
    }
  }

  lemma {:induction false} AcceptedBlocks(t: Table, batch: seq<Validated>, results: seq<Result>, keys: Keys)
    requires |results| == |batch|
    ensures CanLockAll(LockAccepted(t, batch, results), keys) <==>
            && CanLockAll(t, keys)
            && forall j :: 0 <= j < |batch| && results[j].Ok? ==> !ConflictsWith(batch[j], keys)
  {
    if batch != [] {
      var n := |batch| - 1;
      AcceptedBlocks(t, batch[..n], results[..n], keys);
      if batch[n].Keyed? && results[n].Ok? {
        LockingBlocks(LockAccepted(t, batch[..n], results[..n]), batch[n].keys, keys);
      }
    }
  }

  /** No earlier accepted transaction excludes these keys. */
  ghost predicate Unopposed(batch: seq<Validated>, results: seq<Result>, i: nat, keys: Keys)
    requires i <= |batch| && i <= |results|
  {
    forall j :: 0 <= j < i && results[j].Ok? ==> !ConflictsWith(batch[j], keys)
  }

  /** Sequential locking accepts what neither the table nor an earlier accepted transaction excludes. */
  lemma {:induction false} SequentialOutcome(t: Table, batch: seq<Validated>, i: nat)
    requires i < |batch|
    ensures batch[i].Rejected? ==> SequentialResults(t, batch)[i] == Err(batch[i].error)
    ensures batch[i].Keyed? ==>
              SequentialResults(t, batch)[i] ==
              if CanLockAll(t, batch[i].keys) && Unopposed(batch, SequentialResults(t, batch), i, batch[i].keys)
              then Ok else Err(AccountInUse)
  {
    var n := |batch| - 1;
    var results, earlier := SequentialResults(t, batch), SequentialResults(t, batch[..n]);
    assert results[..n] == earlier;
    if i < n {
      SequentialOutcome(t, batch[..n], i);
      SameOpposition(batch, results, n, i);
    } else if batch[n].Keyed? {
      AcceptedBlocks(t, batch[..n], earlier, batch[n].keys);
      SameOpposition(batch, results, n, n);
    }
  }

  lemma SameOpposition(batch: seq<Validated>, results: seq<Result>, n: nat, i: nat)
    requires i <= n <= |batch| == |results|
    ensures forall keys :: Unopposed(batch[..n], results[..n], i, keys) <==> Unopposed(batch, results, i, keys)
  {
    forall j | 0 <= j < i ensures batch[..n][j] == batch[j] && results[..n][j] == results[j] {}
  }

  /** The batch after validation. */
  ghost predicate IsValidated(txs: seq<Keys>, prior: seq<Result>, limit: nat, batch: seq<Validated>) {
    && |batch| <= |txs| && |batch| <= |prior|
    && (forall i :: 0 <= i < |batch| ==>
          batch[i] == if prior[i].Err? then Rejected(prior[i].error)
                      else if |txs[i]| > limit then Rejected(TooManyAccountLocks)
                      else if HasDuplicateKeys(txs[i]) then Rejected(AccountLoadedTwice)
                      else Keyed(txs[i]))
  }

  lemma ResultsMeaning(t: Table, txs: seq<Keys>, prior: seq<Result>, limit: nat, relaxed: bool,
                       batch: seq<Validated>, i: nat)
    requires IsValidated(txs, prior, limit, batch) && i < |batch|
    ensures var results := BatchResults(t, batch, relaxed);
            results[i] == ResultOf(t, txs, prior, limit, relaxed, results, i)
  {
    var results := BatchResults(t, batch, relaxed);
    if batch[i].Keyed? { FreeMeaning(t, batch[i].keys); }
    if !relaxed {
      SequentialOutcome(t, batch, i);
      forall j | 0 <= j < i && results[j].Ok? ensures batch[j] == Keyed(txs[j]) {
        SequentialOutcome(t, batch, j);
      }
    }
  }

  lemma {:induction false} CountsMeaning(t: Table, txs: seq<Keys>, batch: seq<Validated>, results: seq<Result>,
                                         a: Access)
    requires |results| == |batch| <= |txs|
    requires forall i :: 0 <= i < |batch| && results[i].Ok? ==> batch[i] == Keyed(txs[i])
    ensures LockAccepted(t, batch, results).Count(a) == t.Count(a) + LocksTaken(txs, results, a)
  {
    if batch != [] {
      var n := |batch| - 1;
      CountsMeaning(t, txs, batch[..n], results[..n], a);
      if results[n].Ok? {
        LockAllCounts(LockAccepted(t, batch[..n], results[..n]), txs[n], a);
        OccursIsMultiplicity(txs[n], a);
      }
    }
  }

  lemma OutcomeMeaning(t: Table, txs: seq<Keys>, prior: seq<Result>, limit: nat, relaxed: bool, batch: seq<Validated>)
    requires IsValidated(txs, prior, limit, batch) && (|batch| == |txs| || |batch| == |prior|)
    ensures var results := BatchResults(t, batch, relaxed);
            Outcome(t, LockAccepted(t, batch, results), txs, prior, limit, relaxed, results)
  {
    var results := BatchResults(t, batch, relaxed);
    forall i | 0 <= i < |results|
      ensures results[i] == ResultOf(t, txs, prior, limit, relaxed, results, i)
      ensures results[i].Ok? ==> batch[i] == Keyed(txs[i])
    {
      ResultsMeaning(t, txs, prior, limit, relaxed, batch, i);
    }
    forall a ensures LockAccepted(t, batch, results).Count(a) == t.Count(a) + LocksTaken(txs, results, a) {
      CountsMeaning(t, txs, batch, results, a);
    }
  }
}
