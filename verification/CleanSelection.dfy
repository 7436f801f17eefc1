/**
  The purge pass of clean: simulate the store counts as if every candidate were purged, take out
  what cannot be deleted, and filter what an incremental snapshot still needs.
*/
module CleanSelection {
  import opened Types
  import opened CleanDependencies

  const SLOT_MAX: Slot := 0xFFFF_FFFF_FFFF_FFFF

  // ----- Simulated store counts -----

  /** What the reclaim of older versions already took: whole slots per pubkey, and offsets per slot. */
  datatype Reclaimed = Reclaimed(accountSlots: map<Pubkey, set<Slot>>, offsets: map<Slot, set<Offset>>) {
    predicate Took(k: Pubkey, entry: (Slot, AccountInfo)) {
      || (k in accountSlots && entry.0 in accountSlots[k])
      || (entry.0 in offsets && entry.1.offset in offsets[entry.0])
    }
  }

  /** The entries of a slot list that were not reclaimed, in order. */
  function Retained(k: Pubkey, list: SlotList, reclaimed: Reclaimed): (kept: SlotList)
    ensures forall e :: e in kept <==> e in list && !reclaimed.Took(k, e)
  {
    if list == [] then []
    else
      var front := Retained(k, list[..|list| - 1], reclaimed);
      var last := list[|list| - 1];
      assert list == list[..|list| - 1] + [last];
      if reclaimed.Took(k, last) then front else front + [last]
  }

  lemma {:induction false} RetainedIsDistinct(k: Pubkey, list: SlotList, reclaimed: Reclaimed)
    requires DistinctSlots(list)
    ensures DistinctSlots(Retained(k, list, reclaimed))
  {
    if list != [] {
      var front := list[..|list| - 1];
      RetainedIsDistinct(k, front, reclaimed);
      var kept := Retained(k, front, reclaimed);
      forall i | 0 <= i < |kept| ensures kept[i].0 != list[|list| - 1].0 {
        assert kept[i] in kept;
        assert kept[i] in front;
      }
    }
  }

  /** Take one account of `k` off the simulated count of each slot in `slots`. */
  ghost predicate Counted(before: StoreCounts, after: StoreCounts, stored: map<Slot, nat>, k: Pubkey,
                          slots: set<Slot>) {
    && after.Keys == before.Keys + slots
    && (forall s :: s in before && s !in slots ==> after[s] == before[s])
    && (forall s :: s in slots ==> Fresh(before, stored, s) && after[s] == OneOff(before, stored, k, s))
  }

  /** There is an account left to take off the count of `s`. */
  predicate Fresh(counts: StoreCounts, stored: map<Slot, nat>, s: Slot) {
    if s in counts then counts[s].count > 0 else s in stored && stored[s] > 0
  }

  function OneOff(counts: StoreCounts, stored: map<Slot, nat>, k: Pubkey, s: Slot): (count: StoreCount)
    requires Fresh(counts, stored, s)
  {
    if s in counts then StoreCount(counts[s].count - 1, counts[s].keys + {k}) else StoreCount(stored[s] - 1, {k})
  }

  lemma CountOneMore(before: StoreCounts, after: StoreCounts, stored: map<Slot, nat>, k: Pubkey, slots: set<Slot>,
                     s: Slot)
    requires Counted(before, after, stored, k, slots) && s !in slots && Fresh(before, stored, s)
    ensures Fresh(after, stored, s)
    ensures Counted(before, after[s := OneOff(after, stored, k, s)], stored, k, slots + {s})
  {
  }

  /** Retain the slot list of one candidate and count what is left of it. */
  method CountCandidate(k: Pubkey, list: SlotList, reclaimed: Reclaimed, stored: map<Slot, nat>, counts: StoreCounts)
    returns (kept: SlotList, counts': StoreCounts)
    requires DistinctSlots(list)
    requires forall e :: e in Retained(k, list, reclaimed) ==> Fresh(counts, stored, e.0)
    ensures kept == Retained(k, list, reclaimed)
    ensures Counted(counts, counts', stored, k, SlotsOf(kept))
  {
    kept, counts' := [], counts;
    for i := 0 to |list|
      invariant kept == Retained(k, list[..i], reclaimed)
      invariant Counted(counts, counts', stored, k, SlotsOf(kept))
    {
      var entry := list[i];
      assert list[..i + 1][..i] == list[..i];
      if !reclaimed.Took(k, entry) {
        EntryIsNew(k, list, i, reclaimed);
        CountOneMore(counts, counts', stored, k, SlotsOf(kept), entry.0);
        counts' := counts'[entry.0 := OneOff(counts', stored, k, entry.0)];
        kept := kept + [entry];
      }
    }
    assert list[..|list|] == list;
  }

  lemma EntryIsNew(k: Pubkey, list: SlotList, i: nat, reclaimed: Reclaimed)
    requires i < |list| && DistinctSlots(list) && !reclaimed.Took(k, list[i])
    ensures var kept := Retained(k, list[..i], reclaimed);
            && list[i].0 !in SlotsOf(kept) && list[i] in Retained(k, list, reclaimed)
            && SlotsOf(kept + [list[i]]) == SlotsOf(kept) + {list[i].0}
  {
    var kept := Retained(k, list[..i], reclaimed);
    forall j | 0 <= j < |kept| ensures kept[j].0 != list[i].0 {
      assert kept[j] in kept;
      assert kept[j] in list[..i];
    }
    assert list[i] in list;
    var more := kept + [list[i]];
    forall s | s in SlotsOf(more) ensures s in SlotsOf(kept) + {list[i].0} {
      var j :| 0 <= j < |more| && more[j].0 == s;
      assert j < |kept| ==> more[j] == kept[j];
    }
    forall s | s in SlotsOf(kept) ensures s in SlotsOf(more) {
      var j :| 0 <= j < |kept| && kept[j].0 == s;
      assert more[j] == kept[j];
    }
    assert more[|kept|].0 in SlotsOf(more);
  }

  /** The candidates after the reclaimed entries were taken out and changed ref counts were read again. */
  function RetainedInfo(k: Pubkey, info: CleaningInfo, reclaimed: Reclaimed,
                        refCount: Pubkey -> nat): (info': CleaningInfo) {
    CleaningInfo(Retained(k, info.slotList, reclaimed),
                 if k in reclaimed.accountSlots then refCount(k) else info.refCount)
  }

  function RetainedCandidates(c: Candidates, reclaimed: Reclaimed, refCount: Pubkey -> nat): (c': Candidates) {
    Candidates(seq(|c.bins|, b requires 0 <= b < |c.bins| =>
                 map k | k in c.bins[b] :: RetainedInfo(k, c.bins[b][k], reclaimed, refCount)), c.binOf)
  }

  /** The candidates without what was reclaimed: by slot for the pubkey, or by offset in the slot's storage. */
  ghost predicate RetainedFrom(c: Candidates, c': Candidates, reclaimed: Reclaimed, refCount: Pubkey -> nat) {
    && |c'.bins| == |c.bins|
    && (forall b: nat, k: Pubkey :: b < |c.bins| ==> (k in c'.bins[b] <==> k in c.bins[b]))
    && (forall b: nat, k: Pubkey :: b < |c.bins| && k in c.bins[b] && k in c'.bins[b] ==>
          && c'.bins[b][k].refCount == (if k in reclaimed.accountSlots then refCount(k) else c.bins[b][k].refCount)
          && (forall e :: e in c'.bins[b][k].slotList <==>
                && e in c.bins[b][k].slotList
                && !(k in reclaimed.accountSlots && e.0 in reclaimed.accountSlots[k])
                && !(e.0 in reclaimed.offsets && e.1.offset in reclaimed.offsets[e.0])))
  }

  lemma RetainedMeaning(c: Candidates, reclaimed: Reclaimed, refCount: Pubkey -> nat)
    ensures RetainedFrom(c, RetainedCandidates(c, reclaimed, refCount), reclaimed, refCount)
  {
  }

  lemma RetainedIsValid(c: Candidates, reclaimed: Reclaimed, refCount: Pubkey -> nat)
    requires c.Valid()
    ensures RetainedCandidates(c, reclaimed, refCount).Valid()
    ensures forall k :: c.Has(k) <==> RetainedCandidates(c, reclaimed, refCount).Has(k)
  {
    var c' := RetainedCandidates(c, reclaimed, refCount);
    forall b, k | 0 <= b < |c'.bins| && k in c'.bins[b]
      ensures c'.binOf(k) == b && DistinctSlots(c'.bins[b][k].slotList)
    {
      assert c.binOf(k) == b && DistinctSlots(c.bins[b][k].slotList);
      RetainedIsDistinct(k, c.bins[b][k].slotList, reclaimed);
    }
  }

  ghost function Listing(c: Candidates, s: Slot): (keys: set<Pubkey>)
    ensures forall k :: k in keys <==> c.Lists(k, s)
  {
    set b, k | 0 <= b < |c.bins| && k in c.bins[b] && c.Lists(k, s) :: k
  }

  /** Every slot a candidate lists has a storage with at least as many live accounts as candidates listing it. */
  ghost predicate StoresHold(c: Candidates, stored: map<Slot, nat>) {
    forall k, s :: c.Lists(k, s) ==> s in stored && |Listing(c, s)| <= stored[s]
  }

  /** The counts are those of the storages, less one for each visited candidate in them. */
  ghost predicate Tallied(c: Candidates, stored: map<Slot, nat>, counts: StoreCounts, visited: set<Pubkey>) {
    && (forall s :: s in counts ==> TalliedAt(c, stored, counts[s], visited, s))
    && (forall k, s :: k in visited && c.Lists(k, s) ==> s in counts)
  }

  ghost predicate TalliedAt(c: Candidates, stored: map<Slot, nat>, count: StoreCount, visited: set<Pubkey>, s: Slot) {
    && count.keys != {}
    && s in stored && count.count + |count.keys| == stored[s]
    && (forall k :: k in count.keys <==> k in visited && c.Lists(k, s))
  }

  lemma {:induction false} SubsetSize<T>(small: set<T>, big: set<T>)
    requires small <= big
    ensures |small| <= |big|
  {
    if small != {} {
      var x :| x in small;
      SubsetSize(small - {x}, big - {x});
    }
  }

  lemma AccountLeft(c: Candidates, stored: map<Slot, nat>, counts: StoreCounts, visited: set<Pubkey>, k: Pubkey,
                    s: Slot)
    requires c.Lists(k, s) && s in stored && |Listing(c, s)| <= stored[s]
    requires s in counts ==> TalliedAt(c, stored, counts[s], visited, s) && k !in visited
    ensures Fresh(counts, stored, s)
  {
    var others := if s in counts then counts[s].keys else {};
    assert k !in others;
    SubsetSize(others + {k}, Listing(c, s));
  }

  lemma TallyGrowsAt(c: Candidates, stored: map<Slot, nat>, counts: StoreCounts, visited: set<Pubkey>, k: Pubkey,
                     s: Slot)
    requires k !in visited && c.Lists(k, s) && Fresh(counts, stored, s)
    requires if s in counts then TalliedAt(c, stored, counts[s], visited, s)
             else forall j :: j in visited ==> !c.Lists(j, s)
    ensures TalliedAt(c, stored, OneOff(counts, stored, k, s), visited + {k}, s)
  {
  }

  lemma TallyGrows(c: Candidates, stored: map<Slot, nat>, counts: StoreCounts, counts': StoreCounts,
                   visited: set<Pubkey>, k: Pubkey)
    requires Tallied(c, stored, counts, visited) && k !in visited && c.Has(k)
    requires Counted(counts, counts', stored, k, SlotsOf(c.Get(k).slotList))
    ensures Tallied(c, stored, counts', visited + {k})
  {
    forall s | s in counts' ensures TalliedAt(c, stored, counts'[s], visited + {k}, s) {
      if c.Lists(k, s) {
        TallyGrowsAt(c, stored, counts, visited, k, s);
      } else {
        assert TalliedAt(c, stored, counts[s], visited, s);
      }
    }
    forall j, s | j in visited + {k} && c.Lists(j, s) ensures s in counts' {
      if j == k { assert s in SlotsOf(c.Get(k).slotList); }
    }
  }

  /** Count the candidates of one bin, in any order. */
  method CountBin(c: Candidates, b: nat, reclaimed: Reclaimed, refCount: Pubkey -> nat, stored: map<Slot, nat>,
                  counts: StoreCounts, ghost whole: Candidates, ghost visited: set<Pubkey>)
    returns (bin: Bin, counts': StoreCounts)
    requires c.Valid() && b < |c.bins| && whole == RetainedCandidates(c, reclaimed, refCount)
    requires StoresHold(whole, stored)
    requires Tallied(whole, stored, counts, visited) && visited !! c.bins[b].Keys
    ensures bin == whole.bins[b]
    ensures Tallied(whole, stored, counts', visited + c.bins[b].Keys)
  {
    bin, counts' := map[], counts;
    var todo := c.bins[b].Keys;
    ghost var seen := visited;
    while todo != {}
      invariant todo <= c.bins[b].Keys && bin.Keys == c.bins[b].Keys - todo
      invariant seen == visited + bin.Keys
      invariant forall k :: k in bin ==> bin[k] == whole.bins[b][k]
      invariant Tallied(whole, stored, counts', seen)
    {
      var k :| k in todo;
      var info := c.bins[b][k];
      assert whole.Has(k) && whole.Get(k) == RetainedInfo(k, info, reclaimed, refCount);
      forall e | e in Retained(k, info.slotList, reclaimed) ensures Fresh(counts', stored, e.0) {
        assert whole.Lists(k, e.0);
        AccountLeft(whole, stored, counts', seen, k, e.0);
      }
      var kept, more := CountCandidate(k, info.slotList, reclaimed, stored, counts');
      TallyGrows(whole, stored, counts', more, seen, k);
      counts' := more;
      bin := bin[k := CleaningInfo(kept, if k in reclaimed.accountSlots then refCount(k) else info.refCount)];
      todo, seen := todo - {k}, seen + {k};
    }
  }

  /** What a listed storage would be left with if every candidate were purged. */
  ghost function CountOf(c: Candidates, stored: map<Slot, nat>, s: Slot): (count: StoreCount)
    requires StoresHold(c, stored) && Listing(c, s) != {}
  {
    var k: Pubkey :| k in Listing(c, s);
    assert c.Lists(k, s);
    StoreCount(stored[s] - |Listing(c, s)|, Listing(c, s))
  }

  /** The store counts as if every candidate were purged. */
  ghost function Simulated(c: Candidates, stored: map<Slot, nat>): (counts: StoreCounts)
    requires StoresHold(c, stored)
  {
    map s | s in AllSlots(c) && Listing(c, s) != {} :: CountOf(c, stored, s)
  }

  lemma ListedIsSimulated(c: Candidates, stored: map<Slot, nat>, s: Slot)
    requires StoresHold(c, stored)
    ensures s in Simulated(c, stored) <==> Listing(c, s) != {}
  {
    if Listing(c, s) != {} {
      var k: Pubkey :| k in Listing(c, s);
      assert c.Lists(k, s);
    }
  }

  lemma SimulatedAt(c: Candidates, stored: map<Slot, nat>, counts: StoreCounts, s: Slot)
    requires StoresHold(c, stored) && WellFormed(c, counts) && s in counts
    requires s in stored && counts[s].count + |counts[s].keys| == stored[s]
    ensures s in Simulated(c, stored) && counts[s] == Simulated(c, stored)[s]
  {
    assert counts[s].keys == Listing(c, s);
    ListedIsSimulated(c, stored, s);
  }

  lemma CountsAreSimulated(c: Candidates, stored: map<Slot, nat>, counts: StoreCounts)
    requires StoresHold(c, stored) && WellFormed(c, counts)
    requires forall k, s :: c.Lists(k, s) ==> s in counts
    requires forall s :: s in counts ==> s in stored && counts[s].count + |counts[s].keys| == stored[s]
    ensures counts == Simulated(c, stored)
  {
    var simulated := Simulated(c, stored);
    forall s | s in counts ensures s in simulated && counts[s] == simulated[s] { SimulatedAt(c, stored, counts, s); }
    forall s | s in simulated ensures s in counts {
      var k: Pubkey :| k in Listing(c, s);
      assert c.Lists(k, s);
    }
    assert counts.Keys == simulated.Keys;
  }

  /** Build the store counts as if every candidate were purged. */
  method BuildStoreCounts(c: Candidates, reclaimed: Reclaimed, refCount: Pubkey -> nat, stored: map<Slot, nat>)
    returns (c': Candidates, counts: StoreCounts)
    requires c.Valid() && StoresHold(RetainedCandidates(c, reclaimed, refCount), stored)
    ensures c' == RetainedCandidates(c, reclaimed, refCount) && RetainedFrom(c, c', reclaimed, refCount)
    ensures c'.Valid() && WellFormed(c', counts) && counts == Simulated(c', stored)
    ensures forall k, s :: c'.Lists(k, s) ==> s in counts
    ensures forall s :: s in counts ==> s in stored && counts[s].count + |counts[s].keys| == stored[s]
  {
    ghost var whole := RetainedCandidates(c, reclaimed, refCount);
    RetainedIsValid(c, reclaimed, refCount);
    var bins: seq<Bin> := [];
    counts := map[];
    ghost var visited: set<Pubkey> := {};
    for b := 0 to |c.bins|
      invariant |bins| == b && bins == whole.bins[..b]
      invariant Tallied(whole, stored, counts, visited)
      invariant forall k :: k in visited <==> c.Has(k) && c.binOf(k) < b
    {
      var bin;
      bin, counts := CountBin(c, b, reclaimed, refCount, stored, counts, whole, visited);
      bins, visited := bins + [bin], visited + c.bins[b].Keys;
    }
    c' := Candidates(bins, c.binOf);
    assert bins == whole.bins;
    assert forall s :: s in counts ==> TalliedAt(whole, stored, counts[s], visited, s);
    CountsAreSimulated(whole, stored, counts);
    RetainedMeaning(c, reclaimed, refCount);
  }

  // ----- The filter for incremental snapshots -----

  /** Every store that holds the account dies. */
  ghost predicate Purgeable(list: SlotList, counts: StoreCounts) {
    forall s :: s in SlotsOf(list) ==> s in counts && counts[s].count == 0
  }

  ghost predicate IsNewest(list: SlotList, entry: (Slot, AccountInfo)) {
    entry in list && forall s :: s in SlotsOf(list) ==> s <= entry.0
  }

  function NewestEntry(list: SlotList): (entry: (Slot, AccountInfo))
    requires list != []
    ensures IsNewest(list, entry)
  {
    var front := list[..|list| - 1];
    var last := list[|list| - 1];
    assert list == front + [last];
    if front == [] then last
    else
      var best := NewestEntry(front);
      assert forall i :: 0 <= i < |front| ==> front[i].0 in SlotsOf(front);
      if best.0 <= last.0 then last else best
  }

  /** Slots after the last full snapshot are still needed by an incremental one. */
  predicate Filtering(maxCleanRoot: Option<Slot>, lastFull: Option<Slot>) {
    (if maxCleanRoot.Some? then maxCleanRoot.value else SLOT_MAX)
    > (if lastFull.Some? then lastFull.value else SLOT_MAX)
  }

  /**
    Purging an account whose newest version is in this slot takes nothing from an incremental snapshot: the last full
    one has it, or clean goes no further than that.
  */
  ghost predicate SnapshotAllows(maxCleanRoot: Option<Slot>, lastFull: Option<Slot>, newest: Slot) {
    match lastFull
    case None => true
    case Some(full) =>
      newest <= full || match maxCleanRoot case None => SLOT_MAX <= full case Some(root) => root <= full
  }

  lemma FilteringIsForSnapshots(maxCleanRoot: Option<Slot>, lastFull: Option<Slot>)
    requires maxCleanRoot.Some? ==> maxCleanRoot.value <= SLOT_MAX
    ensures Filtering(maxCleanRoot, lastFull) ==> lastFull.Some?
    ensures forall newest: Slot :: SnapshotAllows(maxCleanRoot, lastFull, newest) <==>
              !(Filtering(maxCleanRoot, lastFull) && newest > lastFull.value)
  {
  }

  datatype Verdict = Purge | Reject | Defer(slot: Slot)

  lemma NewestIsUnique(list: SlotList, entry: (Slot, AccountInfo))
    requires DistinctSlots(list) && IsNewest(list, entry)
    ensures entry == NewestEntry(list)
  {
    var i :| 0 <= i < |list| && list[i] == entry;
    var j :| 0 <= j < |list| && list[j] == NewestEntry(list);
    assert list[i].0 in SlotsOf(list) && list[j].0 in SlotsOf(list);
  }

  /** Only an account whose newest version has no lamports is ever judged. */
  method Judge(list: SlotList, counts: StoreCounts, filtering: bool, lastFull: Option<Slot>) returns (verdict: Verdict)
    requires list != [] && DistinctSlots(list) && NewestEntry(list).1.zeroLamport && (filtering ==> lastFull.Some?)
    ensures verdict.Reject? <==> !Purgeable(list, counts)
    ensures verdict.Defer? <==> Purgeable(list, counts) && filtering && NewestEntry(list).0 > lastFull.value
    ensures verdict.Defer? ==> verdict.slot == NewestEntry(list).0
  {
    for i := 0 to |list|
      invariant forall j :: 0 <= j < i ==> list[j].0 in counts && counts[list[j].0].count == 0
    {
      if list[i].0 !in counts || counts[list[i].0].count != 0 {
        assert list[i].0 in SlotsOf(list);
        return Reject;
      }
    }
    if !filtering {
      return Purge;
    }
    var newest := list[0];
    for i := 0 to |list|
      invariant newest in list
      invariant forall j :: 0 <= j < i ==> list[j].0 <= newest.0
    {
      if newest.0 < list[i].0 { newest := list[i]; }
    }
    NewestIsUnique(list, newest);
    assert newest.1.zeroLamport;
    return if newest.0 > lastFull.value then Defer(newest.0) else Purge;
  }

  ghost predicate CandidatesReady(c: Candidates) {
    c.Valid() && forall k :: c.Has(k) ==> c.Get(k).slotList != [] && NewestEntry(c.Get(k).slotList).1.zeroLamport
  }

  /** The pubkey is kept for purging. */
  ghost predicate Kept(c: Candidates, counts: StoreCounts, filtering: bool, lastFull: Option<Slot>, k: Pubkey)
    requires CandidatesReady(c) && (filtering ==> lastFull.Some?)
  {
    && c.Has(k) && Purgeable(c.Get(k).slotList, counts)
    && (filtering ==> NewestEntry(c.Get(k).slotList).0 <= lastFull.value)
  }

  /** The pubkey is rejected for the snapshot alone. */
  ghost predicate Deferred(c: Candidates, counts: StoreCounts, filtering: bool, lastFull: Option<Slot>, k: Pubkey)
    requires CandidatesReady(c) && (filtering ==> lastFull.Some?)
  {
    && c.Has(k) && Purgeable(c.Get(k).slotList, counts)
    && filtering && NewestEntry(c.Get(k).slotList).0 > lastFull.value
  }

  /** `bin` is bin `b` of the candidates, without those not kept. */
  ghost predicate Filtered(c: Candidates, counts: StoreCounts, filtering: bool, lastFull: Option<Slot>, b: nat,
                           bin: Bin)
    requires CandidatesReady(c) && b < |c.bins| && (filtering ==> lastFull.Some?)
  {
    && (forall k: Pubkey :: k in bin <==> k in c.bins[b] && Kept(c, counts, filtering, lastFull, k))
    && (forall k: Pubkey :: k in bin ==> bin[k] == c.bins[b][k])
  }

  /** `later'` is `later` with the deferred candidates among `keys`, each with its newest slot. */
  ghost predicate DeferredTo(c: Candidates, counts: StoreCounts, filtering: bool, lastFull: Option<Slot>,
                             keys: set<Pubkey>, later: set<(Slot, Pubkey)>, later': set<(Slot, Pubkey)>)
    requires CandidatesReady(c) && (filtering ==> lastFull.Some?)
  {
    && later <= later'
    && (forall k: Pubkey :: k in keys && Deferred(c, counts, filtering, lastFull, k) ==>
       (NewestEntry(c.Get(k).slotList).0, k) in later')
    && (forall e: (Slot, Pubkey) :: e in later' - later ==>
         e.1 in keys && Deferred(c, counts, filtering, lastFull, e.1) && e.0 == NewestEntry(c.Get(e.1).slotList).0)
  }

  ghost function KeysBelow(c: Candidates, b: nat): (keys: set<Pubkey>)
    requires b <= |c.bins|
  {
    set i, k | 0 <= i < b && k in c.bins[i] :: k
  }

  ghost predicate IsKept(c: Candidates, kept: seq<Bin>, k: Pubkey) {
    c.binOf(k) < |kept| && k in kept[c.binOf(k)]
  }

  /** Kept are the candidates all of whose stores die, unless a snapshot needs them; those are added to `later`. */
  ghost predicate Sifted(c: Candidates, counts: StoreCounts, maxCleanRoot: Option<Slot>, lastFull: Option<Slot>,
                         kept: seq<Bin>, later: set<(Slot, Pubkey)>, later': set<(Slot, Pubkey)>)
    requires CandidatesReady(c)
  {
    && |kept| == |c.bins|
    && (forall b: nat, k: Pubkey :: b < |kept| && k in kept[b] ==> k in c.bins[b] && kept[b][k] == c.bins[b][k])
    && (forall k: Pubkey :: IsKept(c, kept, k) <==>
          && c.Has(k) && Purgeable(c.Get(k).slotList, counts)
          && SnapshotAllows(maxCleanRoot, lastFull, NewestEntry(c.Get(k).slotList).0))
    && (forall e: (Slot, Pubkey) :: e in later' <==>
          || e in later
          || (&& c.Has(e.1) && Purgeable(c.Get(e.1).slotList, counts) && e.0 == NewestEntry(c.Get(e.1).slotList).0
              && !SnapshotAllows(maxCleanRoot, lastFull, e.0)))
  }

  lemma FilteredIsSifted(c: Candidates, counts: StoreCounts, maxCleanRoot: Option<Slot>, lastFull: Option<Slot>,
                         kept: seq<Bin>, later: set<(Slot, Pubkey)>, later': set<(Slot, Pubkey)>)
    requires CandidatesReady(c) && |kept| == |c.bins|
    requires maxCleanRoot.Some? ==> maxCleanRoot.value <= SLOT_MAX
    requires Filtering(maxCleanRoot, lastFull) ==> lastFull.Some?
    requires forall b: nat :: b < |kept| ==>
               Filtered(c, counts, Filtering(maxCleanRoot, lastFull), lastFull, b, kept[b])
    requires DeferredTo(c, counts, Filtering(maxCleanRoot, lastFull), lastFull, KeysBelow(c, |c.bins|), later, later')
    ensures Sifted(c, counts, maxCleanRoot, lastFull, kept, later, later')
  {
    var filtering := Filtering(maxCleanRoot, lastFull);
    FilteringIsForSnapshots(maxCleanRoot, lastFull);
    forall k: Pubkey ensures IsKept(c, kept, k) <==>
                             && c.Has(k) && Purgeable(c.Get(k).slotList, counts)
                             && SnapshotAllows(maxCleanRoot, lastFull, NewestEntry(c.Get(k).slotList).0)
    {
      if c.binOf(k) < |kept| { assert Filtered(c, counts, filtering, lastFull, c.binOf(k), kept[c.binOf(k)]); }
    }
    forall e: (Slot, Pubkey) | e in later' && e !in later
      ensures Deferred(c, counts, filtering, lastFull, e.1) && e.0 == NewestEntry(c.Get(e.1).slotList).0
    {
      assert e in later' - later;
    }
    forall k: Pubkey | c.Has(k) ensures k in KeysBelow(c, |c.bins|) {}
  }

  method FilterForSnapshots(c: Candidates, counts: StoreCounts, maxCleanRoot: Option<Slot>, lastFull: Option<Slot>,
                            later: set<(Slot, Pubkey)>)
    returns (kept: seq<Bin>, later': set<(Slot, Pubkey)>)
    requires CandidatesReady(c)
    requires maxCleanRoot.Some? ==> maxCleanRoot.value <= SLOT_MAX
    ensures Sifted(c, counts, maxCleanRoot, lastFull, kept, later, later')
  {
    var filtering := Filtering(maxCleanRoot, lastFull);
    kept, later' := [], later;
    for b := 0 to |c.bins|
      invariant |kept| == b
      invariant forall i :: 0 <= i < b ==> Filtered(c, counts, filtering, lastFull, i, kept[i])
      invariant DeferredTo(c, counts, filtering, lastFull, KeysBelow(c, b), later, later')
    {
      var bin, more := FilterBin(c, b, counts, filtering, lastFull, later');
      DeferMore(c, counts, filtering, lastFull, b, later, later', more);
      kept, later' := kept + [bin], more;
    }
    FilteredIsSifted(c, counts, maxCleanRoot, lastFull, kept, later, later');
  }

  lemma DeferMore(c: Candidates, counts: StoreCounts, filtering: bool, lastFull: Option<Slot>, b: nat,
                  first: set<(Slot, Pubkey)>, second: set<(Slot, Pubkey)>, third: set<(Slot, Pubkey)>)
    requires CandidatesReady(c) && (filtering ==> lastFull.Some?) && b < |c.bins|
    requires DeferredTo(c, counts, filtering, lastFull, KeysBelow(c, b), first, second)
    requires DeferredTo(c, counts, filtering, lastFull, c.bins[b].Keys, second, third)
    ensures DeferredTo(c, counts, filtering, lastFull, KeysBelow(c, b + 1), first, third)
  {
    assert KeysBelow(c, b + 1) == KeysBelow(c, b) + c.bins[b].Keys;
  }

  method FilterBin(c: Candidates, b: nat, counts: StoreCounts, filtering: bool, lastFull: Option<Slot>,
                   later: set<(Slot, Pubkey)>)
    returns (bin: Bin, later': set<(Slot, Pubkey)>)
    requires CandidatesReady(c) && b < |c.bins| && (filtering ==> lastFull.Some?)
    ensures Filtered(c, counts, filtering, lastFull, b, bin)
    ensures DeferredTo(c, counts, filtering, lastFull, c.bins[b].Keys, later, later')
  {
    bin, later' := map[], later;
    var todo := c.bins[b].Keys;
    while todo != {}
      invariant todo <= c.bins[b].Keys
      invariant forall k: Pubkey :: k in bin <==> k in c.bins[b].Keys - todo && Kept(c, counts, filtering, lastFull, k)
      invariant forall k: Pubkey :: k in bin ==> bin[k] == c.bins[b][k]
      invariant DeferredTo(c, counts, filtering, lastFull, c.bins[b].Keys - todo, later, later')
    {
      var k :| k in todo;
      assert c.binOf(k) == b && c.Has(k) && c.Get(k) == c.bins[b][k];
      var verdict := Judge(c.bins[b][k].slotList, counts, filtering, lastFull);
      match verdict {
        case Purge => bin := bin[k := c.bins[b][k]];
        case Defer(slot) => later' := later' + {(slot, k)};
        case Reject =>
      }
      todo := todo - {k};
    }
  }

  // ----- The whole pass -----

  /** Every pubkey kept has all its references in its slot list, and no snapshot needs it. */
  ghost predicate PurgeIsSafe(c: Candidates, kept: seq<Bin>, maxCleanRoot: Option<Slot>, lastFull: Option<Slot>)
    requires CandidatesReady(c)
  {
    forall b: nat, k: Pubkey :: b < |kept| && k in kept[b] ==>
      && c.Has(k) && c.binOf(k) == b && kept[b][k] == c.Get(k)
      && c.Get(k).refCount == |c.Get(k).slotList|
      && SnapshotAllows(maxCleanRoot, lastFull, NewestEntry(c.Get(k).slotList).0)
  }

  /**
    A storage that loses a kept pubkey has no live account but candidates, and loses them all but the deferred ones.
  */
  ghost predicate StoreDies(c: Candidates, kept: seq<Bin>, stored: map<Slot, nat>, later: set<(Slot, Pubkey)>, s: Slot)
    requires CandidatesReady(c)
  {
    && s in stored && stored[s] == |Listing(c, s)|
    && (forall j: Pubkey :: c.Lists(j, s) ==> Goes(c, kept, later, j))
  }

  /** A candidate is purged now, or deferred until after the next full snapshot. */
  ghost predicate Goes(c: Candidates, kept: seq<Bin>, later: set<(Slot, Pubkey)>, j: Pubkey)
    requires CandidatesReady(c) && c.Has(j)
  {
    IsKept(c, kept, j) || (NewestEntry(c.Get(j).slotList).0, j) in later
  }

  /** None of the stores of the candidate is connected to a candidate that cannot be purged. */
  ghost predicate Spared(c: Candidates, stored: map<Slot, nat>, k: Pubkey)
    requires StoresHold(c, stored)
  {
    c.Has(k) && forall s :: c.Lists(k, s) ==> !Doomed(c, Simulated(c, stored), s)
  }

  /**
    The pass purges exactly the spared candidates that no snapshot needs.  The others it postpones, each with its newest
    slot, and forgets nothing postponed before.
  */
  ghost predicate PassIsExact(c: Candidates, stored: map<Slot, nat>, maxCleanRoot: Option<Slot>, lastFull: Option<Slot>,
                              kept: seq<Bin>, later: set<(Slot, Pubkey)>, later': set<(Slot, Pubkey)>)
    requires StoresHold(c, stored) && CandidatesReady(c)
  {
    && (forall k: Pubkey :: IsKept(c, kept, k) <==>
          Spared(c, stored, k) && SnapshotAllows(maxCleanRoot, lastFull, NewestEntry(c.Get(k).slotList).0))
    && (forall e: (Slot, Pubkey) :: e in later' <==>
          || e in later
          || (&& Spared(c, stored, e.1) && e.0 == NewestEntry(c.Get(e.1).slotList).0
              && !SnapshotAllows(maxCleanRoot, lastFull, e.0)))
  }

  lemma PurgeableIsSpared(c: Candidates, stored: map<Slot, nat>, counts: StoreCounts, k: Pubkey)
    requires StoresHold(c, stored) && Survived(c, Simulated(c, stored), counts) && c.Has(k)
    requires forall j, s :: c.Lists(j, s) ==> s in Simulated(c, stored)
    ensures Purgeable(c.Get(k).slotList, counts) <==> Spared(c, stored, k)
  {
    forall s | s in SlotsOf(c.Get(k).slotList) ensures s in counts <==> !Doomed(c, Simulated(c, stored), s) {
      assert c.Lists(k, s);
    }
  }

  lemma KeptIsSafe(c: Candidates, simulated: StoreCounts, counts: StoreCounts, maxCleanRoot: Option<Slot>,
                   lastFull: Option<Slot>, kept: seq<Bin>, later: set<(Slot, Pubkey)>, later': set<(Slot, Pubkey)>)
    requires CandidatesReady(c) && Survived(c, simulated, counts)
    requires Sifted(c, counts, maxCleanRoot, lastFull, kept, later, later')
    ensures PurgeIsSafe(c, kept, maxCleanRoot, lastFull)
  {
    forall b: nat, k: Pubkey | b < |kept| && k in kept[b]
      ensures c.Has(k) && c.binOf(k) == b && kept[b][k] == c.Get(k) && c.Get(k).refCount == |c.Get(k).slotList|
    {
      assert k in c.bins[b] && c.binOf(k) == b && IsKept(c, kept, k);
      KeptIsDeletable(c, simulated, counts, k);
    }
  }

  /**
    The whole pass: what is left of the candidates, which of them are purged, and which are put off until after the next
    full snapshot.
  */
  method SelectForPurge(c: Candidates, reclaimed: Reclaimed, refCount: Pubkey -> nat, stored: map<Slot, nat>,
                        maxCleanRoot: Option<Slot>, lastFull: Option<Slot>, later: set<(Slot, Pubkey)>)
    returns (c': Candidates, kept: seq<Bin>, later': set<(Slot, Pubkey)>)
    requires c.Valid() && StoresHold(RetainedCandidates(c, reclaimed, refCount), stored)
    requires CandidatesReady(RetainedCandidates(c, reclaimed, refCount))
    requires maxCleanRoot.Some? ==> maxCleanRoot.value <= SLOT_MAX
    ensures c' == RetainedCandidates(c, reclaimed, refCount) && |kept| == |c.bins|
    ensures RetainedFrom(c, c', reclaimed, refCount)
    ensures PassIsExact(c', stored, maxCleanRoot, lastFull, kept, later, later')
    ensures PurgeIsSafe(c', kept, maxCleanRoot, lastFull)
    ensures forall k: Pubkey, s: Slot :: IsKept(c', kept, k) && c'.Lists(k, s) ==>
              StoreDies(c', kept, stored, later', s)
  {
    var simulated;
    c', simulated := BuildStoreCounts(c, reclaimed, refCount, stored);
    var counts := CalcDeleteDependencies(c', simulated);
    kept, later' := FilterForSnapshots(c', counts, maxCleanRoot, lastFull, later);
    assert Survived(c', simulated, counts);
    forall k: Pubkey | c'.Has(k) ensures Purgeable(c'.Get(k).slotList, counts) <==> Spared(c', stored, k) {
      PurgeableIsSpared(c', stored, counts, k);
    }
    KeptIsSafe(c', simulated, counts, maxCleanRoot, lastFull, kept, later, later');
    forall k: Pubkey, s: Slot | IsKept(c', kept, k) && c'.Lists(k, s) ensures StoreDies(c', kept, stored, later', s) {
      forall j: Pubkey | c'.Lists(j, s) ensures Goes(c', kept, later', j) {
        NeighbourGoes(c', simulated, counts, maxCleanRoot, lastFull, kept, later, later', s, j);
      }
      StoresDieWhole(c', simulated, counts, kept, stored, later', s);
    }
  }

  /** The counts that the closure left. */
  ghost predicate Survived(c: Candidates, simulated: StoreCounts, counts: StoreCounts) {
    && (forall s :: s in counts <==> s in simulated && !Doomed(c, simulated, s))
    && (forall s :: s in counts ==> counts[s].count == 0 && simulated[s].count == 0)
  }

  /** A pubkey whose stores all survived the closure has every reference in its slot list. */
  lemma KeptIsDeletable(c: Candidates, simulated: StoreCounts, counts: StoreCounts, k: Pubkey)
    requires CandidatesReady(c) && c.Has(k) && Purgeable(c.Get(k).slotList, counts)
    requires Survived(c, simulated, counts)
    ensures c.Get(k).refCount == |c.Get(k).slotList|
  {
    var s := c.Get(k).slotList[0].0;
    assert c.Lists(k, s);
    if c.Get(k).refCount != |c.Get(k).slotList| { UndeletableDooms(c, simulated, k, s); }
  }

  /** The candidates in a store that survived the closure have only stores that survived. */
  lemma NeighbourSurvives(c: Candidates, simulated: StoreCounts, counts: StoreCounts, s: Slot, j: Pubkey)
    requires s in counts && c.Lists(j, s) && Survived(c, simulated, counts)
    requires forall t :: c.Lists(j, t) ==> t in simulated
    ensures Purgeable(c.Get(j).slotList, counts)
  {
    forall t | t in SlotsOf(c.Get(j).slotList) ensures t in counts {
      assert c.Lists(j, t);
      if Doomed(c, simulated, t) { DoomSpreads(c, simulated, t, j, s); }
    }
  }

  lemma KeysAreListing(c: Candidates, simulated: StoreCounts, s: Slot)
    requires WellFormed(c, simulated) && s in simulated
    ensures simulated[s].keys == Listing(c, s)
  {
  }

  /** The candidates in a store that survived the closure go, now or later. */
  lemma NeighbourGoes(c: Candidates, simulated: StoreCounts, counts: StoreCounts, maxCleanRoot: Option<Slot>,
                      lastFull: Option<Slot>, kept: seq<Bin>, later: set<(Slot, Pubkey)>, later': set<(Slot, Pubkey)>,
                      s: Slot, j: Pubkey)
    requires CandidatesReady(c) && Sifted(c, counts, maxCleanRoot, lastFull, kept, later, later')
    requires Survived(c, simulated, counts) && s in counts && c.Lists(j, s)
    requires forall k, t :: c.Lists(k, t) ==> t in simulated
    ensures Goes(c, kept, later', j)
  {
    NeighbourSurvives(c, simulated, counts, s, j);
    var newest := NewestEntry(c.Get(j).slotList).0;
    if !SnapshotAllows(maxCleanRoot, lastFull, newest) { assert (newest, j) in later'; }
  }

  lemma StoresDieWhole(c: Candidates, simulated: StoreCounts, counts: StoreCounts, kept: seq<Bin>,
                       stored: map<Slot, nat>, later: set<(Slot, Pubkey)>, s: Slot)
    requires CandidatesReady(c) && WellFormed(c, simulated) && Survived(c, simulated, counts) && s in counts
    requires s in stored && simulated[s].count + |simulated[s].keys| == stored[s]
    requires forall j: Pubkey :: c.Lists(j, s) ==> Goes(c, kept, later, j)
    ensures StoreDies(c, kept, stored, later, s)
  {
    KeysAreListing(c, simulated, s);
  }
}
