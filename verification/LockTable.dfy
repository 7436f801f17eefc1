/**
  The account lock table: two maps of lock counts, and the two ways a batch of transactions locks.

  Everything the lock methods do is stated here on values; module AccountLocks holds the methods.
*/
module LockTable {
  import opened Types

  /** One account a transaction uses, and how. */
  datatype Access = Access(key: Pubkey, writable: bool)

  type Keys = seq<Access>

  datatype TransactionError = AccountInUse | TooManyAccountLocks | AccountLoadedTwice | Earlier(code: nat)

  datatype Result = Ok | Err(error: TransactionError)

  /** The keys of a transaction that passed validation, or why it did not. */
  datatype Validated = Keyed(keys: Keys) | Rejected(error: TransactionError)

  datatype Table = Table(writeLocks: map<Pubkey, nat>, readonlyLocks: map<Pubkey, nat>) {
    function Of(writable: bool): (locks: map<Pubkey, nat>) {
      if writable then writeLocks else readonlyLocks
    }

    function With(writable: bool, locks: map<Pubkey, nat>): (t: Table) {
      if writable then Table(locks, readonlyLocks) else Table(writeLocks, locks)
    }

    function Count(a: Access): (n: nat) {
      if a.key in Of(a.writable) then Of(a.writable)[a.key] else 0
    }
  }

  const EMPTY: Table := Table(map[], map[])

  // ----- One account, one transaction -----

  predicate CanLock(t: Table, a: Access) {
    t.Count(Access(a.key, true)) == 0 && (a.writable ==> t.Count(Access(a.key, false)) == 0)
  }

  predicate CanLockAll(t: Table, keys: Keys) {
    forall i :: 0 <= i < |keys| ==> CanLock(t, keys[i])
  }

  function LockOne(t: Table, a: Access): (t': Table) {
    t.With(a.writable, t.Of(a.writable)[a.key := t.Count(a) + 1])
  }

  /** Giving back the last lock on an account removes its entry; an account that is not locked is left alone. */
  function UnlockOne(t: Table, a: Access): (t': Table) {
    if t.Count(a) == 0 then t
    else if t.Count(a) == 1 then t.With(a.writable, t.Of(a.writable) - {a.key})
    else t.With(a.writable, t.Of(a.writable)[a.key := t.Count(a) - 1])
  }

  function LockAll(t: Table, keys: Keys): (t': Table) {
    if keys == [] then t else LockOne(LockAll(t, keys[..|keys| - 1]), keys[|keys| - 1])
  }

  function UnlockAll(t: Table, keys: Keys): (t': Table) {
    if keys == [] then t else UnlockOne(UnlockAll(t, keys[..|keys| - 1]), keys[|keys| - 1])
  }

  // ----- A batch -----

  function Judge(t: Table, tx: Validated): (r: Result) {
    match tx
    case Rejected(e) => Err(e)
    case Keyed(keys) => if CanLockAll(t, keys) then Ok else Err(AccountInUse)
  }

  function LockIf(t: Table, tx: Validated, r: Result): (t': Table) {
    if tx.Keyed? && r.Ok? then LockAll(t, tx.keys) else t
  }

  /** Lock the transactions of a batch that were accepted. */
  function LockAccepted(t: Table, batch: seq<Validated>, results: seq<Result>): (t': Table)
    requires |batch| == |results|
  {
    if batch == [] then t
    else
      var n := |batch| - 1;
      LockIf(LockAccepted(t, batch[..n], results[..n]), batch[n], results[n])
  }

  /** Sequential locking judges each transaction against everything locked before it. */
  function SequentialResults(t: Table, batch: seq<Validated>): (results: seq<Result>)
    ensures |results| == |batch|
  {
    if batch == [] then []
    else
      var n := |batch| - 1;
      var earlier := SequentialResults(t, batch[..n]);
      earlier + [Judge(LockAccepted(t, batch[..n], earlier), batch[n])]
  }

  /** Relaxed locking judges each transaction against the locks held before the batch. */
  function RelaxedResults(t: Table, batch: seq<Validated>): (results: seq<Result>)
    ensures |results| == |batch|
  {
    seq(|batch|, i requires 0 <= i < |batch| => Judge(t, batch[i]))
  }

  function BatchResults(t: Table, batch: seq<Validated>, relaxed: bool): (results: seq<Result>)
    ensures |results| == |batch|
  {
    if relaxed then RelaxedResults(t, batch) else SequentialResults(t, batch)
  }

  // ----- Counting -----

  ghost predicate NoZeros(t: Table) {
    && (forall k :: k in t.writeLocks ==> t.writeLocks[k] > 0)
    && (forall k :: k in t.readonlyLocks ==> t.readonlyLocks[k] > 0)
  }

  function Occurs(keys: Keys, a: Access): (n: nat) {
    if keys == [] then 0 else Occurs(keys[..|keys| - 1], a) + if keys[|keys| - 1] == a then 1 else 0
  }

  lemma {:induction false} LockAllCounts(t: Table, keys: Keys, a: Access)
    ensures LockAll(t, keys).Count(a) == t.Count(a) + Occurs(keys, a)
    ensures NoZeros(t) ==> NoZeros(LockAll(t, keys))
  {
    if keys != [] { LockAllCounts(t, keys[..|keys| - 1], a); }
  }

  lemma {:induction false} UnlockAllCounts(t: Table, keys: Keys, a: Access)
    requires NoZeros(t) && forall b :: Occurs(keys, b) <= t.Count(b)
    ensures UnlockAll(t, keys).Count(a) == t.Count(a) - Occurs(keys, a)
    ensures NoZeros(UnlockAll(t, keys))
  {
    if keys != [] {
      var front, last := keys[..|keys| - 1], keys[|keys| - 1];
      forall b ensures Occurs(front, b) <= t.Count(b) { assert Occurs(keys, b) <= t.Count(b); }
      UnlockAllCounts(t, front, a);
      UnlockAllCounts(t, front, last);
      assert Occurs(keys, last) == Occurs(front, last) + 1;
    }
  }
}
