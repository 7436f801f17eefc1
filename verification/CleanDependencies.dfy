/**
  Which storages clean may delete.

  A candidate pubkey may be purged only if every storage that holds one of its versions dies, and
  a storage dies only if every account in it is purged.  Clean therefore removes from the simulated
  store counts everything that is connected, through shared candidates, to a pubkey that cannot go.
*/
module CleanDependencies {
  import opened Types

  datatype AccountInfo = AccountInfo(storeId: StoreId, offset: Offset, zeroLamport: bool)

  type SlotList = seq<(Slot, AccountInfo)>

  datatype CleaningInfo = CleaningInfo(slotList: SlotList, refCount: nat)

  type Bin = map<Pubkey, CleaningInfo>

  /** The candidates, spread over the bins of the accounts index. */
  datatype Candidates = Candidates(bins: seq<Bin>, binOf: Pubkey -> nat) {
    ghost predicate Valid() {
      forall b, k :: 0 <= b < |bins| && k in bins[b] ==> binOf(k) == b && DistinctSlots(bins[b][k].slotList)
    }

    predicate Has(k: Pubkey) {
      binOf(k) < |bins| && k in bins[binOf(k)]
    }

    function Get(k: Pubkey): (info: CleaningInfo)
      requires Has(k)
    {
      bins[binOf(k)][k]
    }

    ghost predicate Lists(k: Pubkey, s: Slot) {
      Has(k) && s in SlotsOf(Get(k).slotList)
    }
  }

  datatype StoreCount = StoreCount(count: nat, keys: set<Pubkey>)

  type StoreCounts = map<Slot, StoreCount>

  function SlotsOf(list: SlotList): (slots: set<Slot>)
    ensures forall i :: 0 <= i < |list| ==> list[i].0 in slots
  {
    set i | 0 <= i < |list| :: list[i].0
  }

  ghost predicate DistinctSlots(list: SlotList) {
    forall i, j :: 0 <= i < j < |list| ==> list[i].0 != list[j].0
  }

  /** The keys recorded for a slot are exactly the candidates that list it, and there is at least one. */
  ghost predicate WellFormed(c: Candidates, counts: StoreCounts) {
    forall s :: s in counts ==> counts[s].keys != {} && forall k :: k in counts[s].keys <==> c.Lists(k, s)
  }

  // ----- The delete dependencies, as a graph -----

  /** Some storage holding the pubkey will not be deleted, or is not known to the index. */
  ghost predicate Undeletable(c: Candidates, counts: StoreCounts, k: Pubkey)
    requires c.Has(k)
  {
    || |c.Get(k).slotList| != c.Get(k).refCount
    || exists s :: c.Lists(k, s) && (s !in counts || counts[s].count != 0)
  }

  ghost predicate Share(c: Candidates, j: Pubkey, k: Pubkey) {
    exists s :: c.Lists(j, s) && c.Lists(k, s)
  }

  /** A chain of candidates, neighbours in a common slot, that starts at an undeletable one. */
  ghost predicate Chain(c: Candidates, counts: StoreCounts, chain: seq<Pubkey>) {
    && |chain| > 0
    && c.Has(chain[0]) && Undeletable(c, counts, chain[0])
    && (forall i :: 0 <= i < |chain| - 1 ==> Share(c, chain[i], chain[i + 1]))
  }

  ghost predicate Doomed(c: Candidates, counts: StoreCounts, s: Slot) {
    exists chain :: Chain(c, counts, chain) && c.Lists(chain[|chain| - 1], s)
  }

  lemma UndeletableDooms(c: Candidates, counts: StoreCounts, k: Pubkey, s: Slot)
    requires c.Has(k) && Undeletable(c, counts, k) && c.Lists(k, s)
    ensures Doomed(c, counts, s)
  {
    assert Chain(c, counts, [k]);
  }

  lemma DoomSpreads(c: Candidates, counts: StoreCounts, s: Slot, k: Pubkey, t: Slot)
    requires Doomed(c, counts, s) && c.Lists(k, s) && c.Lists(k, t)
    ensures Doomed(c, counts, t)
  {
    var chain :| Chain(c, counts, chain) && c.Lists(chain[|chain| - 1], s);
    var longer := chain + [k];
    assert Share(c, chain[|chain| - 1], k);
    forall i | 0 <= i < |longer| - 1 ensures Share(c, longer[i], longer[i + 1]) {
      if i == |chain| - 1 {
        assert longer[i] == chain[|chain| - 1] && longer[i + 1] == k;
      } else {
        assert longer[i] == chain[i] && longer[i + 1] == chain[i + 1];
      }
    }
    assert Chain(c, counts, longer);
  }

  // ----- The same set, as a closure -----

  ghost function AllSlots(c: Candidates): (slots: set<Slot>)
    ensures forall k, s :: c.Lists(k, s) ==> s in slots
  {
    set b, k, s | 0 <= b < |c.bins| && k in c.bins[b] && s in SlotsOf(c.bins[b][k].slotList) :: s
  }

  /** The slots that share a candidate with `s`. */
  ghost function Neighbours(c: Candidates, s: Slot): (slots: set<Slot>) {
    set t | t in AllSlots(c) && Linked(c, s, t)
  }

  ghost predicate Linked(c: Candidates, s: Slot, t: Slot) {
    exists k :: c.Lists(k, s) && c.Lists(k, t)
  }

  ghost function DoomedSlots(c: Candidates, counts: StoreCounts): (slots: set<Slot>)
    ensures forall s :: s in slots <==> Doomed(c, counts, s)
  {
    set s | s in AllSlots(c) && Doomed(c, counts, s)
  }

  /** `slots` holds, with every slot that has a store count, all its neighbours. */
  ghost predicate Closed(c: Candidates, counts: StoreCounts, slots: set<Slot>) {
    forall s :: s in slots && s in counts ==> Neighbours(c, s) <= slots
  }

  /** `slots` holds every slot of every undeletable pubkey. */
  ghost predicate HoldsUndeletable(c: Candidates, counts: StoreCounts, slots: set<Slot>) {
    forall k :: c.Has(k) && Undeletable(c, counts, k) ==> SlotsOf(c.Get(k).slotList) <= slots
  }

  lemma DoomedSlotsAreClosed(c: Candidates, counts: StoreCounts)
    ensures Closed(c, counts, DoomedSlots(c, counts)) && HoldsUndeletable(c, counts, DoomedSlots(c, counts))
  {
    forall s, t | s in DoomedSlots(c, counts) && t in Neighbours(c, s) ensures t in DoomedSlots(c, counts) {
      var k: Pubkey :| c.Lists(k, s) && c.Lists(k, t);
      DoomSpreads(c, counts, s, k, t);
    }
    forall k, s | c.Has(k) && Undeletable(c, counts, k) && s in SlotsOf(c.Get(k).slotList)
      ensures s in DoomedSlots(c, counts)
    {
      UndeletableDooms(c, counts, k, s);
    }
  }

  lemma {:induction false} ClosureHoldsChain(c: Candidates, counts: StoreCounts, slots: set<Slot>, chain: seq<Pubkey>,
                                             s: Slot)
    requires Closed(c, counts, slots) && HoldsUndeletable(c, counts, slots)
    requires Chain(c, counts, chain) && c.Lists(chain[|chain| - 1], s)
    ensures s in slots
  {
    if |chain| > 1 {
      var front := chain[..|chain| - 1];
      var last := chain[|chain| - 1];
      assert Share(c, chain[|chain| - 2], chain[|chain| - 2 + 1]);
      var t: Slot :| c.Lists(front[|front| - 1], t) && c.Lists(last, t);
      assert Chain(c, counts, front) by {
        forall i | 0 <= i < |front| - 1 ensures Share(c, front[i], front[i + 1]) {
          assert front[i] == chain[i] && front[i + 1] == chain[i + 1];
        }
      }
      ClosureHoldsChain(c, counts, slots, front, t);
      if t in counts {
        assert s in Neighbours(c, t);
      } else {
        assert Undeletable(c, counts, last);
      }
    }
  }

  /** The doomed slots are the least closed set that holds every undeletable pubkey. */
  lemma DoomedIsLeast(c: Candidates, counts: StoreCounts, slots: set<Slot>)
    requires Closed(c, counts, slots) && HoldsUndeletable(c, counts, slots)
    ensures DoomedSlots(c, counts) <= slots
  {
    forall s | s in DoomedSlots(c, counts) ensures s in slots {
      var chain :| Chain(c, counts, chain) && c.Lists(chain[|chain| - 1], s);
      ClosureHoldsChain(c, counts, slots, chain, s);
    }
  }

  // ----- The worklist -----

  method AddUncounted(list: SlotList, counted: set<Slot>, pending: set<Slot>) returns (pending': set<Slot>)
    ensures pending' == pending + (SlotsOf(list) - counted)
  {
    pending' := pending;
    for i := 0 to |list|
      invariant pending' == pending + (SlotsOf(list[..i]) - counted)
    {
      assert SlotsOf(list[..i + 1]) == SlotsOf(list[..i]) + {list[i].0};
      if list[i].0 !in counted {
        pending' := pending' + {list[i].0};
      }
    }
    assert list[..|list|] == list;
  }

  /** Add the uncounted slots of every candidate in a removed store, in any order. */
  method AddAffected(c: Candidates, slot: Slot, affected: set<Pubkey>, counted: set<Slot>, pending: set<Slot>)
    returns (pending': set<Slot>)
    requires forall k :: k in affected <==> c.Lists(k, slot)
    ensures pending <= pending' <= pending + Neighbours(c, slot)
    ensures Neighbours(c, slot) <= counted + pending'
  {
    pending' := pending;
    var todo := affected;
    while todo != {}
      invariant todo <= affected && pending <= pending' <= pending + Neighbours(c, slot)
      invariant forall k :: k in affected - todo ==> SlotsOf(c.Get(k).slotList) <= counted + pending'
    {
      var k :| k in todo;
      assert SlotsOf(c.Get(k).slotList) <= Neighbours(c, slot) by {
        forall t | t in SlotsOf(c.Get(k).slotList) ensures t in Neighbours(c, slot) {
          assert c.Lists(k, t) && c.Lists(k, slot);
        }
      }
      pending' := AddUncounted(c.Get(k).slotList, counted, pending');
      todo := todo - {k};
    }
    forall t | t in Neighbours(c, slot) ensures t in counted + pending' {
      var k: Pubkey :| c.Lists(k, slot) && c.Lists(k, t);
      assert k in affected - todo;
    }
  }

  ghost predicate Remaining(original: StoreCounts, counts: StoreCounts, counted: set<Slot>) {
    && (forall s :: s in counts <==> s in original && s !in counted)
    && (forall s :: s in counts ==> counts[s] == original[s])
  }

  /** Everything counted so far is doomed, is gone from the store counts, and drags nothing more along. */
  ghost predicate Settled(c: Candidates, original: StoreCounts, doomed: set<Slot>, counts: StoreCounts,
                          counted: set<Slot>) {
    Remaining(original, counts, counted) && counted <= doomed && Closed(c, original, counted)
  }

  /** Some slots are counted, others pending; what the counted ones drag along is counted or pending. */
  ghost predicate Draining(c: Candidates, original: StoreCounts, doomed: set<Slot>, counts: StoreCounts,
                           counted: set<Slot>, pending: set<Slot>) {
    && counted <= doomed && pending <= doomed
    && Remaining(original, counts, counted)
    && (forall s :: s in counted && s in original ==> Neighbours(c, s) <= counted + pending)
  }

  lemma AlreadyCounted(c: Candidates, original: StoreCounts, doomed: set<Slot>, counts: StoreCounts, counted: set<Slot>,
                       pending: set<Slot>, slot: Slot)
    requires Draining(c, original, doomed, counts, counted, pending) && slot in counted
    ensures Draining(c, original, doomed, counts, counted, pending - {slot})
  {
    assert counted + pending == counted + (pending - {slot});
  }

  /** Count one pending slot; its neighbours become pending if it had a store count. */
  lemma CountPending(c: Candidates, original: StoreCounts, doomed: set<Slot>, counts: StoreCounts, counted: set<Slot>,
                     pending: set<Slot>, slot: Slot, more: set<Slot>)
    requires Draining(c, original, doomed, counts, counted, pending) && Closed(c, original, doomed)
    requires slot in pending && slot !in counted
    requires pending - {slot} <= more
    requires if slot in counts then more <= pending - {slot} + Neighbours(c, slot)
             && Neighbours(c, slot) <= counted + {slot} + more
             else more <= pending
    ensures Draining(c, original, doomed, counts - {slot}, counted + {slot}, more)
  {
    assert counted + pending <= counted + {slot} + more;
  }

  /** Remove every store connected to a pubkey that cannot be deleted; `doomed` bounds what may go. */
  method RemoveConnected(c: Candidates, ghost original: StoreCounts, ghost doomed: set<Slot>, k: Pubkey,
                         counts: StoreCounts, counted: set<Slot>)
    returns (counts': StoreCounts, counted': set<Slot>)
    requires WellFormed(c, original) && c.Has(k)
    requires Closed(c, original, doomed) && SlotsOf(c.Get(k).slotList) <= doomed
    requires Settled(c, original, doomed, counts, counted)
    ensures Settled(c, original, doomed, counts', counted')
    ensures counted <= counted' && SlotsOf(c.Get(k).slotList) <= counted'
  {
    counts', counted' := counts, counted;
    var pending := AddUncounted(c.Get(k).slotList, counted', {});
    while pending != {}
      invariant counted <= counted' && SlotsOf(c.Get(k).slotList) <= counted' + pending
      invariant Draining(c, original, doomed, counts', counted', pending)
      decreases doomed - counted', pending
    {
      var slot :| slot in pending;
      if slot in counted' {
        AlreadyCounted(c, original, doomed, counts', counted', pending, slot);
        pending := pending - {slot};
        continue;
      }
      var more := pending - {slot};
      if slot in counts' {
        more := AddAffected(c, slot, counts'[slot].keys, counted' + {slot}, more);
      }
      CountPending(c, original, doomed, counts', counted', pending, slot, more);
      counts', counted', pending := counts' - {slot}, counted' + {slot}, more;
    }
  }

  method AllStoresDie(info: CleaningInfo, counts: StoreCounts) returns (all: bool)
    ensures all <==> |info.slotList| == info.refCount &&
                     forall s :: s in SlotsOf(info.slotList) ==> s in counts && counts[s].count == 0
  {
    if |info.slotList| != info.refCount {
      return false;
    }
    for i := 0 to |info.slotList|
      invariant forall j :: 0 <= j < i ==> info.slotList[j].0 in counts && counts[info.slotList[j].0].count == 0
    {
      var slot := info.slotList[i].0;
      if slot in counts && counts[slot].count == 0 {
        continue;
      }
      return false;
    }
    return true;
  }

  ghost function UndeletableKeys(c: Candidates, counts: StoreCounts): (keys: set<Pubkey>)
    ensures forall k :: c.Has(k) && Undeletable(c, counts, k) ==> k in keys
    ensures forall k :: k in keys ==> c.Has(k) && Undeletable(c, counts, k)
  {
    set b, k | 0 <= b < |c.bins| && k in c.bins[b] && c.binOf(k) == b && Undeletable(c, counts, k) :: k
  }

  /** Judge one candidate against what is left of the store counts; `doomed` bounds what may go. */
  method VisitCandidate(c: Candidates, ghost original: StoreCounts, ghost doomed: set<Slot>, k: Pubkey,
                        counts: StoreCounts, counted: set<Slot>)
    returns (counts': StoreCounts, counted': set<Slot>)
    requires WellFormed(c, original) && c.Has(k)
    requires Closed(c, original, doomed) && HoldsUndeletable(c, original, doomed)
    requires Settled(c, original, doomed, counts, counted)
    ensures Settled(c, original, doomed, counts', counted') && counted <= counted'
    ensures Undeletable(c, original, k) ==> SlotsOf(c.Get(k).slotList) <= counted'
  {
    var deletable := AllStoresDie(c.Get(k), counts);
    if deletable {
      return counts, counted;
    }
    KeptBack(c, original, doomed, counts, counted, k);
    counts', counted' := RemoveConnected(c, original, doomed, k, counts, counted);
  }

  /**
    Remove the store counts of every storage that cannot be deleted.  What is left does not depend
    on the order in which bins, keys and pending slots are visited.
  */
  method CalcDeleteDependencies(c: Candidates, storeCounts: StoreCounts) returns (counts: StoreCounts)
    requires c.Valid() && WellFormed(c, storeCounts)
    ensures forall s :: s in counts <==> s in storeCounts && !Doomed(c, storeCounts, s)
    ensures forall s :: s in counts ==> counts[s] == storeCounts[s] && counts[s].count == 0
  {
    counts := storeCounts;
    var counted: set<Slot> := {};
    ghost var doomed := DoomedSlots(c, storeCounts);
    ghost var bad := UndeletableKeys(c, storeCounts);
    ghost var visited: set<Pubkey> := {};
    DoomedSlotsAreClosed(c, storeCounts);
    for b := 0 to |c.bins|
      invariant Settled(c, storeCounts, doomed, counts, counted)
      invariant forall k :: c.Has(k) && c.binOf(k) < b ==> k in visited
      invariant forall k :: k in bad && k in visited ==> SlotsOf(c.Get(k).slotList) <= counted
    {
      var todo := c.bins[b].Keys;
      while todo != {}
        invariant todo <= c.bins[b].Keys <= visited + todo
        invariant Settled(c, storeCounts, doomed, counts, counted)
        invariant forall k :: c.Has(k) && c.binOf(k) < b ==> k in visited
        invariant forall k :: k in bad && k in visited ==> SlotsOf(c.Get(k).slotList) <= counted
      {
        var k :| k in todo;
        todo, visited := todo - {k}, visited + {k};
        counts, counted := VisitCandidate(c, storeCounts, doomed, k, counts, counted);
      }
    }
    assert HoldsUndeletable(c, storeCounts, counted);
    DoomedIsLeast(c, storeCounts, counted);
    forall s | s in counts ensures counts[s].count == 0 {
      RemainingIsZero(c, storeCounts, s);
    }
  }

  /** A pubkey that fails against the reduced counts is undeletable, or hangs on a slot that is already doomed. */
  lemma KeptBack(c: Candidates, original: StoreCounts, doomed: set<Slot>, counts: StoreCounts, counted: set<Slot>,
                 k: Pubkey)
    requires Settled(c, original, doomed, counts, counted) && c.Has(k)
    requires Closed(c, original, doomed) && HoldsUndeletable(c, original, doomed)
    requires !(|c.Get(k).slotList| == c.Get(k).refCount &&
               forall s :: s in SlotsOf(c.Get(k).slotList) ==> s in counts && counts[s].count == 0)
    ensures SlotsOf(c.Get(k).slotList) <= doomed
  {
    if !Undeletable(c, original, k) {
      var t: Slot :| t in SlotsOf(c.Get(k).slotList) && !(t in counts && counts[t].count == 0);
      assert c.Lists(k, t) && t in original && t in counted;
      forall s | s in SlotsOf(c.Get(k).slotList) ensures s in Neighbours(c, t) {
        assert c.Lists(k, t) && c.Lists(k, s);
      }
    }
  }

  lemma RemainingIsZero(c: Candidates, counts: StoreCounts, s: Slot)
    requires WellFormed(c, counts) && s in counts && !Doomed(c, counts, s)
    ensures counts[s].count == 0
  {
    var k: Pubkey :| k in counts[s].keys;
    if counts[s].count != 0 {
      assert Undeletable(c, counts, k);
      UndeletableDooms(c, counts, k, s);
    }
  }

  /** How the candidates are spread over bins does not change what is doomed. */
  lemma BinningDoesNotMatter(c: Candidates, d: Candidates, counts: StoreCounts, s: Slot)
    requires forall k :: c.Has(k) ==> d.Has(k) && d.Get(k) == c.Get(k)
    requires forall k :: d.Has(k) ==> c.Has(k)
    ensures Doomed(c, counts, s) <==> Doomed(d, counts, s)
  {
    if Doomed(c, counts, s) { ChainCarriesOver(c, d, counts, s); }
    if Doomed(d, counts, s) { ChainCarriesOver(d, c, counts, s); }
  }

  lemma ChainCarriesOver(c: Candidates, d: Candidates, counts: StoreCounts, s: Slot)
    requires forall k :: c.Has(k) ==> d.Has(k) && d.Get(k) == c.Get(k)
    requires forall k :: d.Has(k) ==> c.Has(k)
    requires Doomed(c, counts, s)
    ensures Doomed(d, counts, s)
  {
    var chain :| Chain(c, counts, chain) && c.Lists(chain[|chain| - 1], s);
    assert forall k, t :: c.Lists(k, t) <==> d.Lists(k, t);
    assert Undeletable(d, counts, chain[0]);
    forall i | 0 <= i < |chain| - 1 ensures Share(d, chain[i], chain[i + 1]) {
      assert Share(c, chain[i], chain[i + 1]);
    }
    assert Chain(d, counts, chain);
  }
}
