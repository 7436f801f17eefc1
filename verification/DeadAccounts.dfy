/** Removing reclaimed accounts from their storages and telling which slots are dead. */
module DeadAccounts {
  import opened Types
  import opened StorageEntries

  /** An account a slot list gave up: its slot and its offset in that slot's storage. */
  datatype Reclaim = Reclaim(slot: Slot, offset: Offset)

  type Storages = map<Slot, StorageEntry>

  ghost function OffsetsIn(reclaims: seq<Reclaim>, s: Slot): (offsets: set<Offset>) {
    set r | r in reclaims && r.slot == s :: r.offset
  }

  /** One storage per slot, each with counters that agree with its live accounts. */
  ghost predicate AllValid(storages: Storages)
    reads storages.Values
  {
    forall s :: s in storages ==> storages[s].Valid() && storages[s].slot == s
  }

  /** Every reclaimed account is live in its storage, if that is still there. */
  ghost predicate AllLive(storages: Storages, reclaims: seq<Reclaim>)
    reads storages.Values
  {
    forall r :: r in reclaims && r.slot in storages ==> r.offset in storages[r.slot].live
  }

  /** The reclaimed offsets of each slot, for the slots that have any. */
  ghost predicate Grouped(reclaims: seq<Reclaim>, bySlot: map<Slot, set<Offset>>) {
    && (forall s: Slot :: s in bySlot <==> OffsetsIn(reclaims, s) != {})
    && (forall s: Slot :: s in bySlot ==> bySlot[s] == OffsetsIn(reclaims, s))
  }

  method GroupBySlot(reclaims: seq<Reclaim>) returns (bySlot: map<Slot, set<Offset>>)
    ensures Grouped(reclaims, bySlot)
  {
    bySlot := map[];
    for i := 0 to |reclaims|
      invariant forall s: Slot :: s in bySlot <==> OffsetsIn(reclaims[..i], s) != {}
      invariant forall s: Slot :: s in bySlot ==> bySlot[s] == OffsetsIn(reclaims[..i], s)
    {
      var r := reclaims[i];
      NextReclaim(reclaims, i);
      var before: set<Offset> := if r.slot in bySlot then bySlot[r.slot] else {};
      bySlot := bySlot[r.slot := before + {r.offset}];
    }
    assert reclaims[..|reclaims|] == reclaims;
  }

  lemma NextReclaim(reclaims: seq<Reclaim>, i: nat)
    requires i < |reclaims|
    ensures forall s: Slot :: OffsetsIn(reclaims[..i + 1], s) ==
                              if s == reclaims[i].slot then OffsetsIn(reclaims[..i], s) + {reclaims[i].offset}
                              else OffsetsIn(reclaims[..i], s)
  {
    assert reclaims[..i + 1] == reclaims[..i] + [reclaims[i]];
    forall s: Slot ensures OffsetsIn(reclaims[..i + 1], s) ==
                           if s == reclaims[i].slot then OffsetsIn(reclaims[..i], s) + {reclaims[i].offset}
                           else OffsetsIn(reclaims[..i], s)
    {
      forall o: Offset ensures o in OffsetsIn(reclaims[..i + 1], s) <==> Reclaim(s, o) in reclaims[..i + 1] {
        InOffsets(reclaims[..i + 1], s, o);
      }
      forall o: Offset ensures o in OffsetsIn(reclaims[..i], s) <==> Reclaim(s, o) in reclaims[..i] {
        InOffsets(reclaims[..i], s, o);
      }
    }
  }

  lemma InOffsets(reclaims: seq<Reclaim>, s: Slot, o: Offset)
    ensures o in OffsetsIn(reclaims, s) <==> Reclaim(s, o) in reclaims
  {
    if o in OffsetsIn(reclaims, s) {
      var r :| r in reclaims && r.slot == s && r.offset == o;
      assert r == Reclaim(s, o);
    }
  }

  type Snapshot = map<Slot, EntryState>

  ghost function SnapshotOf(storages: Storages): (snapshot: Snapshot)
    reads storages.Values
  {
    map s | s in storages :: storages[s].State()
  }

  /** Take accounts off one storage; the others stay as they are. */
  method RemoveFrom(storages: Storages, s: Slot, offsets: set<Offset>, marking: Option<Slot>) returns (dead: bool)
    requires AllValid(storages) && s in storages && offsets <= storages[s].live
    modifies storages.Values
    ensures AllValid(storages)
    ensures TakenOff(old(storages[s].State()), storages[s].State(), offsets, marking)
    ensures SnapshotOf(storages) == old(SnapshotOf(storages))[s := storages[s].State()]
    ensures dead <==> old(storages[s].live) - offsets == {}
  {
    var remaining := storages[s].RemoveDead(offsets, marking);
    dead := remaining == 0;
    assert forall t :: t in storages && t != s ==> storages[t] != storages[s];
  }

  /** The storages once the slots outside `todo` have been dealt with. */
  ghost predicate Progress(before: Snapshot, now: Snapshot, reclaimed: map<Slot, set<Offset>>, todo: set<Slot>,
                           marking: Option<Slot>) {
    && now.Keys == before.Keys
    && (forall s: Slot :: s in now ==>
          if s in reclaimed && s !in todo then TakenOff(before[s], now[s], reclaimed[s], marking)
          else now[s] == before[s])
  }

  /** The slots dealt with that lose all they had. */
  ghost function LeftEmpty(before: Snapshot, reclaimed: map<Slot, set<Offset>>, todo: set<Slot>): (slots: set<Slot>) {
    set s | s in reclaimed && s in before && s !in todo && before[s].live - reclaimed[s] == {}
  }

  lemma NextProgress(before: Snapshot, now: Snapshot, next: Snapshot, reclaimed: map<Slot, set<Offset>>,
                     todo: set<Slot>, s: Slot, marking: Option<Slot>)
    requires Progress(before, now, reclaimed, todo, marking) && s in todo && s in reclaimed
    requires if s !in before then next == now
             else s in next && next == now[s := next[s]] && TakenOff(before[s], next[s], reclaimed[s], marking)
    ensures Progress(before, next, reclaimed, todo - {s}, marking)
    ensures LeftEmpty(before, reclaimed, todo - {s}) ==
            LeftEmpty(before, reclaimed, todo) + if s in before && before[s].live - reclaimed[s] == {} then {s} else {}
  {
  }

  /** Take the grouped accounts off storage by storage. */
  method RemoveEach(storages: Storages, reclaimed: map<Slot, set<Offset>>, marking: Option<Slot>)
    returns (deadSlots: set<Slot>)
    requires AllValid(storages)
    requires forall s: Slot :: s in reclaimed && s in storages ==> reclaimed[s] <= storages[s].live
    modifies storages.Values
    ensures AllValid(storages) && Progress(old(SnapshotOf(storages)), SnapshotOf(storages), reclaimed, {}, marking)
    ensures deadSlots == LeftEmpty(old(SnapshotOf(storages)), reclaimed, {})
  {
    deadSlots := {};
    var todo := reclaimed.Keys;
    ghost var before := SnapshotOf(storages);
    ghost var now := before;
    while todo != {}
      invariant todo <= reclaimed.Keys && AllValid(storages) && SnapshotOf(storages) == now
      invariant Progress(before, now, reclaimed, todo, marking)
      invariant deadSlots == LeftEmpty(before, reclaimed, todo)
    {
      var s: Slot :| s in todo;
      if s in storages {
        assert storages[s].State() == now[s] == before[s];
        var dead := RemoveFrom(storages, s, reclaimed[s], marking);
        if dead {
          deadSlots := deadSlots + {s};
        }
      }
      NextProgress(before, now, SnapshotOf(storages), reclaimed, todo, s, marking);
      now := SnapshotOf(storages);
      todo := todo - {s};
    }
  }

  /** Every storage has lost exactly its reclaimed accounts; one that loses none stays as it is. */
  ghost predicate AllRemoved(before: Snapshot, after: Snapshot, reclaims: seq<Reclaim>, marking: Option<Slot>) {
    && after.Keys == before.Keys
    && (forall s: Slot :: s in before ==> TakenOffAt(before[s], after[s], OffsetsIn(reclaims, s), marking))
  }

  ghost predicate TakenOffAt(before: EntryState, after: EntryState, offsets: set<Offset>, marking: Option<Slot>) {
    if offsets == {} then after == before else TakenOff(before, after, offsets, marking)
  }

  lemma RemovedFromAll(before: Snapshot, now: Snapshot, reclaims: seq<Reclaim>, reclaimed: map<Slot, set<Offset>>,
                       marking: Option<Slot>)
    requires Grouped(reclaims, reclaimed) && Progress(before, now, reclaimed, {}, marking)
    ensures AllRemoved(before, now, reclaims, marking)
    ensures forall s: Slot :: s in LeftEmpty(before, reclaimed, {}) <==> s in now && s in reclaimed && now[s].live == {}
  {
    forall s: Slot | s in before ensures TakenOffAt(before[s], now[s], OffsetsIn(reclaims, s), marking) {
      assert s in now;
    }
  }

  /**
    Take the reclaimed accounts off their storages: a slot is reported dead exactly when nothing in it is live any more.
  */
  method RemoveDeadAccounts(storages: Storages, reclaims: seq<Reclaim>, expected: Option<Slot>, marking: Option<Slot>)
    returns (deadSlots: set<Slot>, reclaimed: map<Slot, set<Offset>>)
    requires AllValid(storages) && AllLive(storages, reclaims)
    requires expected.Some? ==> reclaims != [] && forall r :: r in reclaims ==> r.slot == expected.value
    modifies storages.Values
    ensures AllValid(storages) && AllRemoved(old(SnapshotOf(storages)), SnapshotOf(storages), reclaims, marking)
    ensures Grouped(reclaims, reclaimed)
    ensures forall s: Slot :: s in deadSlots <==> s in storages && s in reclaimed && SnapshotOf(storages)[s].live == {}
  {
    reclaimed := GroupBySlot(reclaims);
    if expected.Some? {
      ExpectedOnly(reclaims, reclaimed, expected.value);
      assert |reclaimed| == 1 && expected.value in reclaimed;
    }
    ReclaimedIsLive(storages, reclaims, reclaimed);
    ghost var before := SnapshotOf(storages);
    deadSlots := RemoveEach(storages, reclaimed, marking);
    RemovedFromAll(before, SnapshotOf(storages), reclaims, reclaimed, marking);
  }

  lemma ReclaimedIsLive(storages: Storages, reclaims: seq<Reclaim>, reclaimed: map<Slot, set<Offset>>)
    requires AllLive(storages, reclaims)
    requires forall s: Slot :: s in reclaimed ==> reclaimed[s] == OffsetsIn(reclaims, s)
    ensures forall s: Slot :: s in reclaimed && s in storages ==> reclaimed[s] <= storages[s].live
  {
    forall s: Slot, o: Offset | s in reclaimed && s in storages && o in reclaimed[s] ensures o in storages[s].live {
      InOffsets(reclaims, s, o);
    }
  }

  lemma ExpectedOnly(reclaims: seq<Reclaim>, reclaimed: map<Slot, set<Offset>>, s: Slot)
    requires reclaims != [] && forall r :: r in reclaims ==> r.slot == s
    requires forall t: Slot :: t in reclaimed <==> OffsetsIn(reclaims, t) != {}
    ensures reclaimed.Keys == {s} && |reclaimed| == 1
  {
    InOffsets(reclaims, s, reclaims[0].offset);
    assert reclaims[0] == Reclaim(s, reclaims[0].offset);
    assert reclaimed.Keys == {s};
    assert |reclaimed| == |reclaimed.Keys|;
  }
}
