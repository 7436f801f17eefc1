/** Every run of lock and unlock calls: who holds what, and what each batch mode accepts. */
module LockHistory {
  import opened Types
  import opened LockTable
  import opened Sequences

  /** A transaction that holds its locks, with the lock call that admitted it. */
  datatype Holder = Holder(keys: Keys, call: nat, relaxed: bool)

  datatype System = System(table: Table, holders: seq<Holder>, calls: nat)

  datatype Event = Lock(batch: seq<Validated>, relaxed: bool) | Unlock(index: nat)

  function Start(): (sys: System) {
    System(EMPTY, [], 0)
  }

  /** The accounts of one transaction are distinct, as validation requires. */
  ghost predicate DistinctKeys(keys: Keys) {
    forall i, j :: 0 <= i < j < |keys| ==> keys[i].key != keys[j].key
  }

  ghost predicate Allowed(sys: System, e: Event) {
    match e
    case Lock(batch, _) => forall i :: 0 <= i < |batch| && batch[i].Keyed? ==> DistinctKeys(batch[i].keys)
    case Unlock(i) => i < |sys.holders|
  }

  /** The holders that a lock call adds, in batch order. */
  function Admitted(batch: seq<Validated>, results: seq<Result>, call: nat, relaxed: bool): (hs: seq<Holder>)
    requires |batch| == |results|
  {
    if batch == [] then []
    else
      var n := |batch| - 1;
      Admitted(batch[..n], results[..n], call, relaxed)
      + if batch[n].Keyed? && results[n].Ok? then [Holder(batch[n].keys, call, relaxed)] else []
  }

  function Next(sys: System, e: Event): (sys': System)
    requires Allowed(sys, e)
  {
    match e
    case Lock(batch, relaxed) =>
      var results := BatchResults(sys.table, batch, relaxed);
      System(LockAccepted(sys.table, batch, results), sys.holders + Admitted(batch, results, sys.calls, relaxed),
             sys.calls + 1)
    case Unlock(i) =>
      System(UnlockAll(sys.table, sys.holders[i].keys), Without(sys.holders, i), sys.calls)
  }

  ghost predicate IsRun(states: seq<System>, events: seq<Event>) {
    && |states| == |events| + 1
    && states[0] == Start()
    && (forall i :: 0 <= i < |events| ==> Allowed(states[i], events[i]) && states[i + 1] == Next(states[i], events[i]))
  }

  // ----- Uses and conflicts -----

  predicate Uses(keys: Keys, a: Access) {
    exists i :: 0 <= i < |keys| && keys[i] == a
  }

  /** Two transactions conflict when they use one account and at least one of them writes it. */
  ghost predicate Conflict(x: Keys, y: Keys) {
    exists k :: ConflictOn(x, y, k)
  }

  ghost predicate ConflictOn(x: Keys, y: Keys, k: Pubkey) {
    || (Uses(x, Access(k, true)) && (Uses(y, Access(k, true)) || Uses(y, Access(k, false))))
    || (Uses(x, Access(k, false)) && Uses(y, Access(k, true)))
  }

  ghost predicate ConflictsWith(tx: Validated, keys: Keys) {
    tx.Keyed? && Conflict(tx.keys, keys)
  }

  /** How many holders use an account in one mode. */
  function Users(hs: seq<Holder>, a: Access): (n: nat) {
    if hs == [] then 0 else Users(hs[..|hs| - 1], a) + if Uses(hs[|hs| - 1].keys, a) then 1 else 0
  }

  /** Each lock count is the number of holders using that account in that mode, and no zero entry is stored. */
  ghost predicate Matches(t: Table, hs: seq<Holder>) {
    NoZeros(t) && forall a :: t.Count(a) == Users(hs, a)
  }

  lemma {:induction false} OccursOnce(keys: Keys, a: Access)
    requires DistinctKeys(keys)
    ensures Occurs(keys, a) == if Uses(keys, a) then 1 else 0
  {
    if keys != [] {
      var front, last := keys[..|keys| - 1], keys[|keys| - 1];
      OccursOnce(front, a);
      assert Uses(keys, a) <==> Uses(front, a) || last == a by {
        if Uses(front, a) {
          var i :| 0 <= i < |front| && front[i] == a;
          assert keys[i] == a;
        }
        if last == a { assert keys[|keys| - 1] == a; }
        if Uses(keys, a) {
          var i :| 0 <= i < |keys| && keys[i] == a;
          assert i < |front| ==> front[i] == a;
        }
      }
      if last == a {
        forall i | 0 <= i < |front| ensures front[i] != a { assert keys[i].key != keys[|keys| - 1].key; }
      }
    }
  }

  lemma {:induction false} UsersOfConcat(hs: seq<Holder>, more: seq<Holder>, a: Access)
    ensures Users(hs + more, a) == Users(hs, a) + Users(more, a)
  {
    if more == [] {
      assert hs + more == hs;
    } else {
      var front := more[..|more| - 1];
      UsersOfConcat(hs, front, a);
      assert (hs + more)[..|hs + more| - 1] == hs + front;
    }
  }

  lemma UsersWithout(hs: seq<Holder>, i: nat, a: Access)
    requires i < |hs|
    ensures Users(hs, a) == Users(Without(hs, i), a) + if Uses(hs[i].keys, a) then 1 else 0
  {
    UsersOfConcat(hs[..i], hs[i + 1..], a);
    UsersOfConcat(hs[..i], [hs[i]], a);
    UsersOfConcat(hs[..i] + [hs[i]], hs[i + 1..], a);
    assert hs == hs[..i] + [hs[i]] + hs[i + 1..];
    assert Users([hs[i]], a) == if Uses(hs[i].keys, a) then 1 else 0 by { assert [hs[i]][..0] == []; }
  }

  lemma {:induction false} UsersPositive(hs: seq<Holder>, a: Access)
    ensures Users(hs, a) > 0 <==> exists i :: 0 <= i < |hs| && Uses(hs[i].keys, a)
  {
    if hs != [] {
      var front := hs[..|hs| - 1];
      UsersPositive(front, a);
      if Users(front, a) > 0 {
        var i :| 0 <= i < |front| && Uses(front[i].keys, a);
        assert Uses(hs[i].keys, a);
      }
      if i :| 0 <= i < |hs| && Uses(hs[i].keys, a) {
        assert i < |front| ==> Uses(front[i].keys, a);
      }
    }
  }

  /** A transaction can be locked exactly when it conflicts with no holder. */
  lemma CanLockIff(t: Table, hs: seq<Holder>, keys: Keys)
    requires Matches(t, hs)
    ensures CanLockAll(t, keys) <==> forall i :: 0 <= i < |hs| ==> !Conflict(hs[i].keys, keys)
  {
    forall a ensures t.Count(a) > 0 <==> exists i :: 0 <= i < |hs| && Uses(hs[i].keys, a) { UsersPositive(hs, a); }
    if CanLockAll(t, keys) {
      forall i | 0 <= i < |hs| ensures !Conflict(hs[i].keys, keys) {
        forall k ensures !ConflictOn(hs[i].keys, keys, k) { FreeOf(t, hs, keys, i, k); }
      }
    } else {
      var j :| 0 <= j < |keys| && !CanLock(t, keys[j]);
      var a := if t.Count(Access(keys[j].key, true)) > 0 then Access(keys[j].key, true) else Access(keys[j].key, false);
      var i :| 0 <= i < |hs| && Uses(hs[i].keys, a);
      assert Uses(keys, keys[j]);
      assert ConflictOn(hs[i].keys, keys, keys[j].key);
    }
  }

  lemma FreeOf(t: Table, hs: seq<Holder>, keys: Keys, i: nat, k: Pubkey)
    requires CanLockAll(t, keys) && i < |hs|
    requires forall a :: t.Count(a) > 0 <==> exists j :: 0 <= j < |hs| && Uses(hs[j].keys, a)
    ensures !ConflictOn(hs[i].keys, keys, k)
  {
    forall w: bool | Uses(keys, Access(k, w)) ensures CanLock(t, Access(k, w)) {
      var j :| 0 <= j < |keys| && keys[j] == Access(k, w);
    }
    forall w: bool | Uses(hs[i].keys, Access(k, w)) ensures t.Count(Access(k, w)) > 0 { }
  }

  // ----- What every call keeps -----

  lemma LockMatches(t: Table, hs: seq<Holder>, h: Holder)
    requires Matches(t, hs) && DistinctKeys(h.keys)
    ensures Matches(LockAll(t, h.keys), hs + [h])
  {
    LockAllCounts(t, h.keys, Access(0, true));
    forall a ensures LockAll(t, h.keys).Count(a) == Users(hs + [h], a) {
      LockAllCounts(t, h.keys, a);
      OccursOnce(h.keys, a);
      assert (hs + [h])[..|hs|] == hs;
    }
  }

  lemma UnlockMatches(t: Table, hs: seq<Holder>, i: nat)
    requires Matches(t, hs) && i < |hs| && DistinctKeys(hs[i].keys)
    ensures Matches(UnlockAll(t, hs[i].keys), Without(hs, i))
  {
    forall a ensures Occurs(hs[i].keys, a) <= t.Count(a) {
      OccursOnce(hs[i].keys, a);
      UsersWithout(hs, i, a);
    }
    UnlockAllCounts(t, hs[i].keys, Access(0, true));
    forall a ensures UnlockAll(t, hs[i].keys).Count(a) == Users(Without(hs, i), a) {
      UnlockAllCounts(t, hs[i].keys, a);
      OccursOnce(hs[i].keys, a);
      UsersWithout(hs, i, a);
    }
  }

  ghost predicate AllDistinct(batch: seq<Validated>) {
    forall i :: 0 <= i < |batch| && batch[i].Keyed? ==> DistinctKeys(batch[i].keys)
  }

  lemma {:induction false} AcceptedMatches(t: Table, hs: seq<Holder>, batch: seq<Validated>, results: seq<Result>,
                                           call: nat, relaxed: bool)
    requires Matches(t, hs) && AllDistinct(batch) && |results| == |batch|
    ensures Matches(LockAccepted(t, batch, results), hs + Admitted(batch, results, call, relaxed))
  {
    if batch == [] {
      assert hs + [] == hs;
    } else {
      var n := |batch| - 1;
      var before := hs + Admitted(batch[..n], results[..n], call, relaxed);
      AcceptedMatches(t, hs, batch[..n], results[..n], call, relaxed);
      if batch[n].Keyed? && results[n].Ok? {
        var h := Holder(batch[n].keys, call, relaxed);
        LockMatches(LockAccepted(t, batch[..n], results[..n]), before, h);
        assert before + [h] == hs + Admitted(batch, results, call, relaxed);
      } else {
        assert before == hs + Admitted(batch, results, call, relaxed);
      }
    }
  }

  /** Holders that conflict were admitted together by one relaxed call. */
  ghost predicate Compatible(hs: seq<Holder>) {
    forall i, j :: 0 <= i < j < |hs| && Conflict(hs[i].keys, hs[j].keys) ==>
      hs[i].call == hs[j].call && hs[i].relaxed && hs[j].relaxed
  }

  lemma CompatibleWith(hs: seq<Holder>, h: Holder)
    requires Compatible(hs)
    requires forall i :: 0 <= i < |hs| && Conflict(hs[i].keys, h.keys) ==>
             hs[i].call == h.call && hs[i].relaxed && h.relaxed
    ensures Compatible(hs + [h])
  {
  }

  lemma CompatibleWithout(hs: seq<Holder>, i: nat)
    requires Compatible(hs) && i < |hs|
    ensures Compatible(Without(hs, i))
  {
    var rest := Without(hs, i);
    forall x, y | 0 <= x < y < |rest| && Conflict(rest[x].keys, rest[y].keys)
      ensures rest[x].call == rest[y].call && rest[x].relaxed && rest[y].relaxed
    {
      var x', y' := if x < i then x else x + 1, if y < i then y else y + 1;
      assert rest[x] == hs[x'] && rest[y] == hs[y'];
    }
  }

  lemma {:induction false} SequentialCompatible(t: Table, hs: seq<Holder>, batch: seq<Validated>, call: nat)
    requires Matches(t, hs) && AllDistinct(batch) && Compatible(hs)
    ensures Compatible(hs + Admitted(batch, SequentialResults(t, batch), call, false))
  {
    var results := SequentialResults(t, batch);
    if batch == [] {
      assert hs + [] == hs;
    } else {
      var n := |batch| - 1;
      assert results[..n] == SequentialResults(t, batch[..n]);
      var before := hs + Admitted(batch[..n], results[..n], call, false);
      SequentialCompatible(t, hs, batch[..n], call);
      AcceptedMatches(t, hs, batch[..n], results[..n], call, false);
      if batch[n].Keyed? && results[n].Ok? {
        var h := Holder(batch[n].keys, call, false);
        CanLockIff(LockAccepted(t, batch[..n], results[..n]), before, h.keys);
        CompatibleWith(before, h);
        assert before + [h] == hs + Admitted(batch, results, call, false);
      } else {
        assert before == hs + Admitted(batch, results, call, false);
      }
    }
  }

  /** Each admitted holder is an accepted transaction of the batch. */
  lemma {:induction false} AdmittedFrom(batch: seq<Validated>, results: seq<Result>, call: nat, relaxed: bool, i: nat)
    returns (j: nat)
    requires |results| == |batch| && i < |Admitted(batch, results, call, relaxed)|
    ensures j < |batch| && results[j].Ok? && batch[j].Keyed?
    ensures Admitted(batch, results, call, relaxed)[i] == Holder(batch[j].keys, call, relaxed)
  {
    var n := |batch| - 1;
    var front := Admitted(batch[..n], results[..n], call, relaxed);
    if i < |front| {
      j := AdmittedFrom(batch[..n], results[..n], call, relaxed, i);
    } else {
      j := n;
    }
  }

  lemma {:induction false} RelaxedCompatible(t: Table, hs: seq<Holder>, batch: seq<Validated>, call: nat)
    requires Matches(t, hs) && Compatible(hs)
    ensures Compatible(hs + Admitted(batch, RelaxedResults(t, batch), call, true))
  {
    var results := RelaxedResults(t, batch);
    if batch == [] {
      assert hs + [] == hs;
    } else {
      var n := |batch| - 1;
      assert results[..n] == RelaxedResults(t, batch[..n]);
      var front := Admitted(batch[..n], results[..n], call, true);
      RelaxedCompatible(t, hs, batch[..n], call);
      if batch[n].Keyed? && results[n].Ok? {
        var h := Holder(batch[n].keys, call, true);
        CanLockIff(t, hs, h.keys);
        forall i | 0 <= i < |front| ensures front[i].call == call && front[i].relaxed {
          var j := AdmittedFrom(batch[..n], results[..n], call, true, i);
        }
        CompatibleWith(hs + front, h);
        assert hs + front + [h] == hs + Admitted(batch, results, call, true);
      } else {
        assert hs + front == hs + Admitted(batch, results, call, true);
      }
    }
  }

  ghost predicate SystemOk(sys: System) {
    && Matches(sys.table, sys.holders) && Compatible(sys.holders)
    && (forall i :: 0 <= i < |sys.holders| ==> DistinctKeys(sys.holders[i].keys) && sys.holders[i].call < sys.calls)
  }

  lemma EventKeeps(sys: System, e: Event)
    requires SystemOk(sys) && Allowed(sys, e)
    ensures SystemOk(Next(sys, e))
  {
    match e
    case Lock(batch, relaxed) =>
      var results := BatchResults(sys.table, batch, relaxed);
      AcceptedMatches(sys.table, sys.holders, batch, results, sys.calls, relaxed);
      if relaxed {
        RelaxedCompatible(sys.table, sys.holders, batch, sys.calls);
      } else {
        SequentialCompatible(sys.table, sys.holders, batch, sys.calls);
      }
      var more := Admitted(batch, results, sys.calls, relaxed);
      forall i | 0 <= i < |more| ensures DistinctKeys(more[i].keys) && more[i].call < sys.calls + 1 {
        var j := AdmittedFrom(batch, results, sys.calls, relaxed, i);
      }
    case Unlock(i) =>
      UnlockMatches(sys.table, sys.holders, i);
      CompatibleWithout(sys.holders, i);
  }

  lemma {:induction false} RunKeeps(states: seq<System>, events: seq<Event>, i: nat)
    requires IsRun(states, events) && i < |states|
    ensures SystemOk(states[i])
  {
    if i > 0 {
      RunKeeps(states, events, i - 1);
      EventKeeps(states[i - 1], events[i - 1]);
    }
  }

  // ----- What callers rely on -----

  /**
    In every state of every run the counts are those of the holders, and conflicting holders share one relaxed call.
  */
  lemma LocksMatchHolders(states: seq<System>, events: seq<Event>, i: nat)
    requires IsRun(states, events) && i < |states|
    ensures forall a :: states[i].table.Count(a) == Users(states[i].holders, a)
    ensures NoZeros(states[i].table) && Compatible(states[i].holders)
  {
    RunKeeps(states, events, i);
  }

  /** An unlock finds every lock it gives back, so the debug assertions never fire. */
  lemma UnlockFindsLocks(states: seq<System>, events: seq<Event>, i: nat, h: nat, a: Access)
    requires IsRun(states, events) && i < |states| && h < |states[i].holders|
    ensures Occurs(states[i].holders[h].keys, a) <= states[i].table.Count(a)
  {
    RunKeeps(states, events, i);
    OccursOnce(states[i].holders[h].keys, a);
    UsersWithout(states[i].holders, h, a);
  }

  /** Release holders one by one, each time any of those left. */
  function Drain(sys: System, order: seq<nat>): (sys': System)
    requires CanDrain(sys, order)
    decreases |order|
  {
    if order == [] then sys
    else
      assert forall i :: 0 <= i < |order[1..]| ==> order[1..][i] == order[i + 1];
      Drain(Next(sys, Unlock(order[0])), order[1..])
  }

  ghost predicate CanDrain(sys: System, order: seq<nat>) {
    |order| <= |sys.holders| && forall i :: 0 <= i < |order| ==> order[i] < |sys.holders| - i
  }

  /** Releasing every holder, in any order, empties both tables. */
  lemma {:induction false} DrainEmpties(sys: System, order: seq<nat>)
    requires SystemOk(sys) && |order| == |sys.holders| && CanDrain(sys, order)
    ensures Drain(sys, order).table == EMPTY
    decreases |order|
  {
    if order == [] {
      forall k, w: bool ensures k !in sys.table.Of(w) { assert sys.table.Count(Access(k, w)) == 0; }
      assert sys.table.writeLocks == map[] by { assert forall k :: k !in sys.table.Of(true); }
      assert sys.table.readonlyLocks == map[] by { assert forall k :: k !in sys.table.Of(false); }
    } else {
      EventKeeps(sys, Unlock(order[0]));
      assert forall i :: 0 <= i < |order[1..]| ==> order[1..][i] == order[i + 1];
      DrainEmpties(Next(sys, Unlock(order[0])), order[1..]);
    }
  }

  lemma ReleasingAllEmpties(states: seq<System>, events: seq<Event>, i: nat, order: seq<nat>)
    requires IsRun(states, events) && i < |states|
    requires |order| == |states[i].holders| && CanDrain(states[i], order)
    ensures Drain(states[i], order).table == EMPTY
  {
    RunKeeps(states, events, i);
    DrainEmpties(states[i], order);
  }

  lemma ConflictFreeConcat(hs: seq<Holder>, more: seq<Holder>, keys: Keys)
    ensures ConflictFree(hs + more, keys) <==> ConflictFree(hs, keys) && ConflictFree(more, keys)
  {
    assert forall h :: 0 <= h < |hs| ==> (hs + more)[h] == hs[h];
    assert forall h :: 0 <= h < |more| ==> (hs + more)[|hs| + h] == more[h];
  }

  /** Sequential locking accepts a transaction exactly when it conflicts with no holder and no earlier accepted one. */
  lemma {:induction false} SequentialExact(t: Table, hs: seq<Holder>, batch: seq<Validated>, i: nat)
    requires Matches(t, hs) && AllDistinct(batch) && i < |batch|
    ensures SequentialResults(t, batch)[i].Ok? <==>
            && batch[i].Keyed?
            && (forall h :: 0 <= h < |hs| ==> !Conflict(hs[h].keys, batch[i].keys))
            && (forall j :: 0 <= j < i && SequentialResults(t, batch)[j].Ok? ==>
               !ConflictsWith(batch[j], batch[i].keys))
    ensures batch[i].Rejected? ==> SequentialResults(t, batch)[i] == Err(batch[i].error)
    ensures batch[i].Keyed? && SequentialResults(t, batch)[i].Err? ==>
            SequentialResults(t, batch)[i].error.AccountInUse?
  {
    var n := |batch| - 1;
    var results := SequentialResults(t, batch);
    var earlier := SequentialResults(t, batch[..n]);
    assert results[..n] == earlier;
    if i < n {
      SequentialExact(t, hs, batch[..n], i);
      assert forall j :: 0 <= j < i ==> earlier[j] == results[j] && batch[..n][j] == batch[j];
    } else if batch[n].Keyed? {
      var admitted := Admitted(batch[..n], earlier, 0, false);
      AcceptedMatches(t, hs, batch[..n], earlier, 0, false);
      CanLockIff(LockAccepted(t, batch[..n], earlier), hs + admitted, batch[n].keys);
      AdmittedConflicts(batch[..n], earlier, 0, false, batch[n].keys);
      ConflictFreeConcat(hs, admitted, batch[n].keys);
    }
  }

  /** No admitted holder conflicts exactly when no accepted transaction does. */
  lemma {:induction false} AdmittedConflicts(batch: seq<Validated>, results: seq<Result>, call: nat, relaxed: bool,
                                             keys: Keys)
    requires |results| == |batch|
    ensures ConflictFree(Admitted(batch, results, call, relaxed), keys) <==>
            forall j :: 0 <= j < |batch| && results[j].Ok? ==> !ConflictsWith(batch[j], keys)
  {
    if batch != [] {
      var n := |batch| - 1;
      AdmittedConflicts(batch[..n], results[..n], call, relaxed, keys);
      var front, all := Admitted(batch[..n], results[..n], call, relaxed), Admitted(batch, results, call, relaxed);
      assert ConflictFree(all, keys) <==>
             ConflictFree(front, keys) && !(results[n].Ok? && ConflictsWith(batch[n], keys)) by {
        assert forall h :: 0 <= h < |front| ==> all[h] == front[h];
        assert |all| > |front| ==> all[|front|].keys == batch[n].keys;
      }
      assert forall j :: 0 <= j < n ==> batch[..n][j] == batch[j] && results[..n][j] == results[j];
    }
  }

  ghost predicate ConflictFree(hs: seq<Holder>, keys: Keys) {
    forall h :: 0 <= h < |hs| ==> !Conflict(hs[h].keys, keys)
  }

  /** Relaxed locking accepts a transaction exactly when it conflicts with no holder from before the batch. */
  lemma RelaxedExact(t: Table, hs: seq<Holder>, batch: seq<Validated>, i: nat)
    requires Matches(t, hs) && i < |batch|
    ensures RelaxedResults(t, batch)[i].Ok? <==>
            batch[i].Keyed? && forall h :: 0 <= h < |hs| ==> !Conflict(hs[h].keys, batch[i].keys)
  {
    if batch[i].Keyed? { CanLockIff(t, hs, batch[i].keys); }
  }

  /** From the same state, relaxed locking accepts every transaction that sequential locking accepts. */
  lemma RelaxedAcceptsMore(t: Table, hs: seq<Holder>, batch: seq<Validated>, i: nat)
    requires Matches(t, hs) && AllDistinct(batch) && i < |batch| && SequentialResults(t, batch)[i].Ok?
    ensures RelaxedResults(t, batch)[i].Ok?
  {
    SequentialExact(t, hs, batch, i);
    RelaxedExact(t, hs, batch, i);
  }

  // ----- Reordering a relaxed batch -----

  /** How often the accepted transactions of a relaxed batch lock an account. */
  function Tally(t: Table, batch: seq<Validated>, a: Access): (n: nat) {
    if batch == [] then 0 else Tally(t, batch[..|batch| - 1], a) + Weight(t, batch[|batch| - 1], a)
  }

  function Weight(t: Table, tx: Validated, a: Access): (n: nat) {
    if tx.Keyed? && Judge(t, tx).Ok? then Occurs(tx.keys, a) else 0
  }

  lemma {:induction false} RelaxedCounts(t: Table, batch: seq<Validated>, a: Access)
    requires NoZeros(t)
    ensures LockAccepted(t, batch, RelaxedResults(t, batch)).Count(a) == t.Count(a) + Tally(t, batch, a)
    ensures NoZeros(LockAccepted(t, batch, RelaxedResults(t, batch)))
  {
    if batch != [] {
      var n := |batch| - 1;
      assert RelaxedResults(t, batch)[..n] == RelaxedResults(t, batch[..n]);
      RelaxedCounts(t, batch[..n], a);
      if batch[n].Keyed? {
        LockAllCounts(LockAccepted(t, batch[..n], RelaxedResults(t, batch[..n])), batch[n].keys, a);
      }
    }
  }

  lemma {:induction false} TallyWithout(t: Table, batch: seq<Validated>, i: nat, a: Access)
    requires i < |batch|
    ensures Tally(t, batch, a) == Tally(t, Without(batch, i), a) + Weight(t, batch[i], a)
  {
    var n := |batch| - 1;
    if i == n {
      assert Without(batch, i) == batch[..n];
    } else {
      TallyWithout(t, batch[..n], i, a);
      var rest := Without(batch, i);
      assert rest[..|rest| - 1] == Without(batch[..n], i) && rest[|rest| - 1] == batch[n];
    }
  }

  lemma {:induction false} TallyOfPermutation(t: Table, batch: seq<Validated>, other: seq<Validated>, a: Access)
    requires multiset(batch) == multiset(other)
    ensures Tally(t, batch, a) == Tally(t, other, a)
  {
    if batch == [] {
      assert |multiset(other)| == 0;
    } else {
      var i := MatchLast(batch, other);
      TallyOfPermutation(t, batch[..|batch| - 1], Without(other, i), a);
      TallyWithout(t, other, i, a);
    }
  }

  lemma SameCounts(t: Table, u: Table)
    requires NoZeros(t) && NoZeros(u) && forall a :: t.Count(a) == u.Count(a)
    ensures t == u
  {
    forall k, w: bool ensures (k in t.Of(w) <==> k in u.Of(w)) && (k in t.Of(w) ==> t.Of(w)[k] == u.Of(w)[k]) {
      assert t.Count(Access(k, w)) == u.Count(Access(k, w));
    }
    assert t.writeLocks == u.writeLocks by { assert t.Of(true) == t.writeLocks && u.Of(true) == u.writeLocks; }
    assert t.readonlyLocks == u.readonlyLocks by {
      assert t.Of(false) == t.readonlyLocks && u.Of(false) == u.readonlyLocks;
    }
  }

  /** Reordering a relaxed batch changes neither the result of any transaction nor the locks held afterwards. */
  lemma RelaxedIgnoresOrder(t: Table, batch: seq<Validated>, other: seq<Validated>)
    requires NoZeros(t) && multiset(batch) == multiset(other)
    ensures forall i, j :: 0 <= i < |batch| && 0 <= j < |other| && batch[i] == other[j] ==>
            RelaxedResults(t, batch)[i] == RelaxedResults(t, other)[j]
    ensures LockAccepted(t, batch, RelaxedResults(t, batch)) == LockAccepted(t, other, RelaxedResults(t, other))
  {
    var x, y := LockAccepted(t, batch, RelaxedResults(t, batch)), LockAccepted(t, other, RelaxedResults(t, other));
    RelaxedCounts(t, batch, Access(0, true));
    RelaxedCounts(t, other, Access(0, true));
    forall a ensures x.Count(a) == y.Count(a) {
      RelaxedCounts(t, batch, a);
      RelaxedCounts(t, other, a);
      TallyOfPermutation(t, batch, other, a);
    }
    SameCounts(x, y);
  }
}
