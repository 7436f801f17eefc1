/** One candidate, alone in its storage: the purge pass at its smallest. */
module CleanExample {
  import opened Types
  import opened CleanDependencies
  import opened CleanSelection

  /** Pubkey 1, without lamports, stored once, in the slot. */
  function LoneCandidate(s: Slot): (c: Candidates) {
    Candidates([map[1 := CleaningInfo([(s, AccountInfo(0, 0, true))], 1)]], k => if k == 1 then 0 else 1)
  }

  const NOTHING: Reclaimed := Reclaimed(map[], map[])

  lemma LoneIsRetained(s: Slot, refCount: Pubkey -> nat)
    ensures RetainedCandidates(LoneCandidate(s), NOTHING, refCount) == LoneCandidate(s)
  {
    var c := LoneCandidate(s);
    var list := c.bins[0][1].slotList;
    assert list[..0] == [] && Retained(1, [], NOTHING) == [];
    assert Retained(1, list, NOTHING) == [] + [list[0]] == list;
    assert RetainedCandidates(c, NOTHING, refCount).bins[0] == c.bins[0];
  }

  lemma LoneIsListed(s: Slot)
    ensures LoneCandidate(s).Valid() && CandidatesReady(LoneCandidate(s)) && StoresHold(LoneCandidate(s), map[s := 1])
    ensures Listing(LoneCandidate(s), s) == {1}
    ensures NewestEntry(LoneCandidate(s).Get(1).slotList).0 == s
    ensures forall k, t :: LoneCandidate(s).Lists(k, t) <==> k == 1 && t == s
  {
    var c := LoneCandidate(s);
    var list := [(s, AccountInfo(0, 0, true))];
    assert c.Get(1).slotList == list && list[0].0 in SlotsOf(list);
    assert forall k, t :: c.Lists(k, t) <==> k == 1 && t == s;
    assert Listing(c, s) == {1};
    assert IsNewest(list, NewestEntry(list));
  }

  /** Nothing keeps its storage back: the storage has no other account, and the index no other reference. */
  lemma LoneIsSpared(s: Slot)
    ensures StoresHold(LoneCandidate(s), map[s := 1]) && Spared(LoneCandidate(s), map[s := 1], 1)
  {
    LoneIsListed(s);
    var c, stored := LoneCandidate(s), map[s := 1];
    var simulated := Simulated(c, stored);
    ListedIsSimulated(c, stored, s);
    assert s in simulated && simulated[s].count == 0;
    forall k | c.Has(k) ensures !Undeletable(c, simulated, k) {
      assert k == 1;
    }
    forall t | Doomed(c, simulated, t) ensures false { NothingIsDoomed(c, simulated, t); }
  }

  lemma NothingIsDoomed(c: Candidates, counts: StoreCounts, t: Slot)
    requires forall k :: c.Has(k) ==> !Undeletable(c, counts, k)
    ensures !Doomed(c, counts, t)
  {
  }

  lemma LoneIsReady(s: Slot, refCount: Pubkey -> nat)
    ensures var c := RetainedCandidates(LoneCandidate(s), NOTHING, refCount);
            c == LoneCandidate(s) && c.Valid() && StoresHold(c, map[s := 1]) && CandidatesReady(c)
  {
    LoneIsRetained(s, refCount);
    LoneIsListed(s);
  }

  lemma LoneOutcome(s: Slot, maxCleanRoot: Option<Slot>, lastFull: Option<Slot>, kept: seq<Bin>,
                    later: set<(Slot, Pubkey)>)
    requires |kept| == 1 && StoresHold(LoneCandidate(s), map[s := 1]) && CandidatesReady(LoneCandidate(s))
    requires PassIsExact(LoneCandidate(s), map[s := 1], maxCleanRoot, lastFull, kept, {}, later)
    ensures 1 in kept[0] <==> SnapshotAllows(maxCleanRoot, lastFull, s)
    ensures later == if 1 in kept[0] then {} else {(s, 1)}
  {
    var c := LoneCandidate(s);
    LoneIsListed(s);
    LoneIsSpared(s);
    assert IsKept(c, kept, 1) <==> 1 in kept[0];
    assert (s, 1) in later <==> 1 !in kept[0];
    assert forall k :: Spared(c, map[s := 1], k) ==> k == 1;
    assert forall e :: e in later ==> e == (s, 1);
  }

  /** It is purged, unless an incremental snapshot still needs to know that it is gone; then it is put off. */
  method PurgeLone(s: Slot, maxCleanRoot: Option<Slot>, lastFull: Option<Slot>)
    returns (purged: bool, later: set<(Slot, Pubkey)>)
    requires maxCleanRoot.Some? ==> maxCleanRoot.value <= SLOT_MAX
    ensures lastFull.None? ==> purged
    ensures lastFull.Some? && s <= lastFull.value ==> purged
    ensures lastFull.Some? && maxCleanRoot.Some? && lastFull.value < s ==>
              (purged <==> maxCleanRoot.value <= lastFull.value)
    ensures later == if purged then {} else {(s, 1)}
  {
    var refCount: Pubkey -> nat := _ => 1;
    LoneIsReady(s, refCount);
    var c', kept;
    c', kept, later := SelectForPurge(LoneCandidate(s), NOTHING, refCount, map[s := 1], maxCleanRoot, lastFull, {});
    LoneOutcome(s, maxCleanRoot, lastFull, kept, later);
    purged := 1 in kept[0];
  }
}
