/**
  What a read returns, in terms of what was done: the writes, the new roots and the beginning of the read among the
  actions of the run.
*/
module RunHistory {
  import opened Types
  import opened StorageProtocol
  import opened ProtocolInvariant
  import opened ReaderSafety

  predicate IsWrite(action: Action, k: Pubkey, s: Slot) {
    action.Background? && action.step.Write? && action.step.k == k && action.step.s == s
  }

  /** Among the first `n` actions, number `j` is the last write of the key in the slot. */
  ghost predicate LastWrite(actions: seq<Action>, n: nat, k: Pubkey, s: Slot, j: nat) {
    j < n <= |actions| && IsWrite(actions[j], k, s) && forall i :: j < i < n ==> !IsWrite(actions[i], k, s)
  }

  ghost predicate Written(actions: seq<Action>, n: nat, k: Pubkey, s: Slot) {
    exists j: nat :: LastWrite(actions, n, k, s, j)
  }

  ghost predicate Rooted(actions: seq<Action>, n: nat, s: Slot) {
    exists j :: 0 <= j < n && j < |actions| && actions[j] == Background(AddRoot(s))
  }

  /** Action `b` began the read going on after `n` actions. */
  ghost predicate Began(actions: seq<Action>, n: nat, b: nat) {
    b < n <= |actions| && actions[b].BeginRead? && forall i :: b < i < n ==> !actions[i].BeginRead?
  }

  // ----- What the states remember of the actions -----

  /** The account last written is the one recorded, and nothing else is. */
  ghost predicate Records(actions: seq<Action>, n: nat, logical: map<Version, Account>, k: Pubkey, s: Slot) {
    && (Version(k, s) in logical <==> Written(actions, n, k, s))
    && (forall j: nat :: LastWrite(actions, n, k, s, j) ==>
          Version(k, s) in logical && logical[Version(k, s)] == actions[j].step.account)
  }

  lemma NextRecord(actions: seq<Action>, n: nat, before: map<Version, Account>, after: map<Version, Account>,
                   k: Pubkey, s: Slot)
    requires n < |actions| && Records(actions, n, before, k, s)
    requires if IsWrite(actions[n], k, s) then Version(k, s) in after && after[Version(k, s)] == actions[n].step.account
             else SameFor(before, after, Version(k, s))
    ensures Records(actions, n + 1, after, k, s)
  {
    if IsWrite(actions[n], k, s) {
      assert LastWrite(actions, n + 1, k, s, n);
    } else {
      forall j: nat ensures LastWrite(actions, n + 1, k, s, j) <==> LastWrite(actions, n, k, s, j) {}
    }
  }

  /** No step but a write changes what was stored, and a write replaces what its key had in the slot. */
  lemma StepRecords(db: Db, step: Step, k: Pubkey, s: Slot)
    requires Enabled(db, step)
    ensures var after := Apply(db, step).logical;
            if IsWrite(Background(step), k, s) then Version(k, s) in after && after[Version(k, s)] == step.account
            else SameFor(db.logical, after, Version(k, s))
  {
  }

  lemma {:induction false} RunRecords(states: seq<System>, actions: seq<Action>, n: nat, k: Pubkey, s: Slot)
    requires IsRun(states, actions) && n < |states|
    ensures Records(actions, n, states[n].db.logical, k, s)
  {
    if n > 0 {
      RunRecords(states, actions, n - 1, k, s);
      assert states[n - 1 + 1] == Next(states[n - 1], actions[n - 1]);
      if actions[n - 1].Background? { StepRecords(states[n - 1].db, actions[n - 1].step, k, s); }
      NextRecord(actions, n - 1, states[n - 1].db.logical, states[n].db.logical, k, s);
    }
  }

  lemma StepRoots(db: Db, step: Step, s: Slot)
    requires Enabled(db, step)
    ensures s in Apply(db, step).roots <==> s in db.roots || step == AddRoot(s)
  {
  }

  lemma {:induction false} RunRoots(states: seq<System>, actions: seq<Action>, n: nat, s: Slot)
    requires IsRun(states, actions) && n < |states|
    ensures s in states[n].db.roots <==> Rooted(actions, n, s)
  {
    if n > 0 {
      RunRoots(states, actions, n - 1, s);
      assert states[n - 1 + 1] == Next(states[n - 1], actions[n - 1]);
      if actions[n - 1].Background? { StepRoots(states[n - 1].db, actions[n - 1].step, s); }
      if s in states[n].db.roots && s !in states[n - 1].db.roots { assert actions[n - 1] == Background(AddRoot(s)); }
    }
  }

  /** The reader looks for what it was asked for. */
  lemma {:induction false} RunReads(states: seq<System>, actions: seq<Action>, n: nat, b: nat)
    requires IsRun(states, actions) && n < |states| && Began(actions, n, b)
    ensures states[n].key == actions[b].key && states[n].ancestors == actions[b].ancestors
  {
    assert states[n - 1 + 1] == Next(states[n - 1], actions[n - 1]);
    if b < n - 1 {
      RunReads(states, actions, n - 1, b);
      AdvanceKeepsGoal(states[n - 1]);
    }
  }

  lemma AdvanceKeepsGoal(sys: System)
    ensures Advance(sys).key == sys.key && Advance(sys).ancestors == sys.ancestors && Advance(sys).db == sys.db
  {
  }

  /** A read holds nothing up but new roots, and writes of its key in the slots it was given. */
  lemma ReadsHoldNothingUp(states: seq<System>, actions: seq<Action>, n: nat, b: nat, step: Step)
    requires IsRun(states, actions) && n < |states| && Began(actions, n, b) && Enabled(states[n].db, step)
    requires !step.AddRoot?
    requires step.Write? || step.PublishWrite? ==> step.k != actions[b].key || step.s !in actions[b].ancestors
    ensures Allowed(states[n], Background(step))
  {
    RunReads(states, actions, n, b);
  }

  // ----- What a read returns -----

  /** The slots a read begun by action `b` can see: those it was given, and the roots. */
  ghost predicate Sees(actions: seq<Action>, n: nat, b: nat, s: Slot)
    requires Began(actions, n, b)
  {
    s in actions[b].ancestors || Rooted(actions, n, s)
  }

  /** The newest slot the read can see in which its key was ever written. */
  ghost predicate NewestWritten(actions: seq<Action>, n: nat, b: nat, s: Slot)
    requires Began(actions, n, b)
  {
    && Sees(actions, n, b, s) && Written(actions, n, actions[b].key, s)
    && (forall t: Slot :: Sees(actions, n, b, t) && Written(actions, n, actions[b].key, t) ==> t <= s)
  }

  lemma NewestIsWritten(states: seq<System>, actions: seq<Action>, n: nat, b: nat, s: Slot)
    requires IsRun(states, actions) && n < |states| && Began(actions, n, b)
    ensures NewestStored(states[n], s) <==> NewestWritten(actions, n, b, s)
  {
    var k := actions[b].key;
    RunReads(states, actions, n, b);
    forall t: Slot ensures t in Visible(states[n]) <==> Sees(actions, n, b, t) { RunRoots(states, actions, n, t); }
    forall t: Slot ensures Version(k, t) in states[n].db.logical <==> Written(actions, n, k, t) {
      RunRecords(states, actions, n, k, t);
    }
  }

  /**
    In every run, an account found is the one last written under the key, before the end of the read, in the newest slot
    that the read can see and that has one.
  */
  lemma FoundIsLastWritten(states: seq<System>, actions: seq<Action>, n: nat, b: nat)
    requires IsRun(states, actions) && n < |states| && Began(actions, n, b) && states[n].pc.Found?
    ensures NewestWritten(actions, n, b, states[n].pc.slot)
    ensures forall j: nat :: LastWrite(actions, n, actions[b].key, states[n].pc.slot, j) ==>
              states[n].pc.account == actions[j].step.account
  {
    ReaderIsSafe(states, actions, n);
    NewestIsWritten(states, actions, n, b, states[n].pc.slot);
    RunReads(states, actions, n, b);
    RunRecords(states, actions, n, actions[b].key, states[n].pc.slot);
  }

  /** And a key reported missing was last written without lamports in that slot, or in no slot the read can see. */
  lemma MissingIsLastErased(states: seq<System>, actions: seq<Action>, n: nat, b: nat, s: Slot, j: nat)
    requires IsRun(states, actions) && n < |states| && Began(actions, n, b) && states[n].pc.Missing?
    requires NewestWritten(actions, n, b, s) && LastWrite(actions, n, actions[b].key, s, j)
    ensures actions[j].step.account.lamports == 0
  {
    ReaderIsSafe(states, actions, n);
    NewestIsWritten(states, actions, n, b, s);
    RunReads(states, actions, n, b);
    RunRecords(states, actions, n, actions[b].key, s);
  }
}
