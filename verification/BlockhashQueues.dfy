/** The window of recent blockhashes. */
module BlockhashQueues {
  import opened Types

  type Hash = nat

  datatype HashInfo = HashInfo(lamportsPerSignature: nat, hashIndex: nat, timestamp: nat)

  /** A hash as it was registered. */
  datatype Registration = Registration(hash: Hash, lamportsPerSignature: nat, timestamp: nat)

  /** The hash is among the last `age + 1` registered. */
  ghost predicate IsRecent(history: seq<Registration>, hash: Hash, age: nat) {
    exists i :: 0 <= i < |history| && |history| - 1 - i <= age && history[i].hash == hash
  }

  /** The last registration of a hash. */
  ghost predicate IsLatest(history: seq<Registration>, i: int, hash: Hash) {
    0 <= i < |history| && history[i].hash == hash && forall j :: i < j < |history| ==> history[j].hash != hash
  }

  predicate IsHashIndexValid(lastHashIndex: nat, maxAge: nat, hashIndex: nat)
    requires hashIndex <= lastHashIndex
  {
    lastHashIndex - hashIndex <= maxAge
  }

  // ----- What the map knows of the history; `base` is the index of its first hash -----

  /** Each entry tells of the last registration of its hash. */
  ghost predicate Faithful(history: seq<Registration>, base: nat, hashes: map<Hash, HashInfo>) {
    forall h: Hash :: h in hashes ==>
      && IsLatest(history, hashes[h].hashIndex - base, h)
      && hashes[h] == InfoOf(history[hashes[h].hashIndex - base], hashes[h].hashIndex)
  }

  function InfoOf(r: Registration, hashIndex: nat): (info: HashInfo) {
    HashInfo(r.lamportsPerSignature, hashIndex, r.timestamp)
  }

  /** No hash of the window is missing. */
  ghost predicate Covers(history: seq<Registration>, hashes: map<Hash, HashInfo>, maxAge: nat) {
    forall i :: 0 <= i < |history| && |history| - 1 - i <= maxAge ==> history[i].hash in hashes
  }

  lemma IndicesBelow(history: seq<Registration>, base: nat, hashes: map<Hash, HashInfo>)
    requires Faithful(history, base, hashes)
    ensures forall h: Hash :: h in hashes ==> base <= hashes[h].hashIndex < base + |history|
  {
  }

  /** Entries were dropped, but none that is valid at index `last`. */
  ghost predicate KeepsValid(hashes: map<Hash, HashInfo>, kept: map<Hash, HashInfo>, last: nat, maxAge: nat) {
    && (forall h: Hash :: h in kept ==> h in hashes && kept[h] == hashes[h])
    && (forall h: Hash :: h in hashes && last - hashes[h].hashIndex <= maxAge ==> h in kept)
  }

  /** No entry is older than `maxAge` at index `last`. */
  ghost predicate Young(hashes: map<Hash, HashInfo>, last: nat, maxAge: nat) {
    forall h: Hash :: h in hashes ==> last - hashes[h].hashIndex <= maxAge
  }

  lemma FaithfulNext(history: seq<Registration>, base: nat, kept: map<Hash, HashInfo>, r: Registration, info: HashInfo)
    requires Faithful(history, base, kept) && info == InfoOf(r, base + |history|)
    ensures Faithful(history + [r], base, kept[r.hash := info])
  {
    var more := history + [r];
    forall h: Hash | h in kept && h != r.hash ensures IsLatest(more, kept[h].hashIndex - base, h) {
      assert IsLatest(history, kept[h].hashIndex - base, h);
    }
  }

  /** Dropping hashes that are too old drops none of the window of the next registration. */
  lemma CoversNext(history: seq<Registration>, base: nat, hashes: map<Hash, HashInfo>, kept: map<Hash, HashInfo>,
                   maxAge: nat, r: Registration, info: HashInfo)
    requires Faithful(history, base, hashes) && Covers(history, hashes, maxAge)
    requires KeepsValid(hashes, kept, base + |history|, maxAge)
    ensures Covers(history + [r], kept[r.hash := info], maxAge)
  {
    var more := history + [r];
    forall i | 0 <= i < |more| && |more| - 1 - i <= maxAge ensures more[i].hash in kept || more[i].hash == r.hash {
      if i < |history| {
        var h := history[i].hash;
        assert h in hashes && IsLatest(history, hashes[h].hashIndex - base, h);
        assert hashes[h].hashIndex - base >= i;
      }
    }
  }

  /** Entries with different indices in a range are no more than the range is long. */
  lemma {:induction false} FitsInRange(hashes: map<Hash, HashInfo>, lo: nat, hi: nat)
    requires lo <= hi && forall h: Hash :: h in hashes ==> lo <= hashes[h].hashIndex < hi
    requires forall g: Hash, h: Hash :: g in hashes && h in hashes && g != h ==>
             hashes[g].hashIndex != hashes[h].hashIndex
    ensures |hashes| <= hi - lo
    decreases hi - lo
  {
    if h: Hash :| h in hashes && hashes[h].hashIndex == hi - 1 {
      var rest := hashes - {h};
      FitsInRange(rest, lo, hi - 1);
      assert hashes.Keys == rest.Keys + {h};
      assert |hashes.Keys| == |rest.Keys| + 1;
    } else if lo < hi {
      FitsInRange(hashes, lo, hi - 1);
    } else {
      assert hashes.Keys == {};
    }
  }

  /** The hashes kept are at most `maxAge`, so that with the new one there are at most `maxAge + 1`. */
  lemma RetainedIsBounded(history: seq<Registration>, base: nat, kept: map<Hash, HashInfo>, maxAge: nat)
    requires Faithful(history, base, kept) && Young(kept, base + |history|, maxAge)
    ensures |kept| <= maxAge
  {
    var last := base + |history|;
    IndicesBelow(history, base, kept);
    FitsInRange(kept, if last < maxAge then 0 else last - maxAge, last);
  }

  /** Valid for an age within the window means registered that recently; for any age it implies it. */
  lemma ValidIsRecent(history: seq<Registration>, base: nat, hashes: map<Hash, HashInfo>, maxAge: nat, hash: Hash,
                      age: nat)
    requires Faithful(history, base, hashes) && Covers(history, hashes, maxAge) && base + |history| > 0
    ensures var valid := hash in hashes && base + |history| - 1 - hashes[hash].hashIndex <= age;
            (valid ==> IsRecent(history, hash, age)) && (age <= maxAge && IsRecent(history, hash, age) ==> valid)
  {
    if hash in hashes {
      assert IsLatest(history, hashes[hash].hashIndex - base, hash);
    }
    if age <= maxAge && IsRecent(history, hash, age) {
      var i :| 0 <= i < |history| && |history| - 1 - i <= age && history[i].hash == hash;
      assert history[i].hash in hashes;
      assert hashes[hash].hashIndex - base >= i;
    }
  }

  lemma OneMore(kept: map<Hash, HashInfo>, hash: Hash, info: HashInfo)
    ensures |kept[hash := info]| <= |kept| + 1
  {
    var next := kept[hash := info];
    assert next.Keys == kept.Keys + {hash};
    assert |next.Keys| <= |kept.Keys| + 1;
  }

  lemma NothingYet(base: nat, hashes: map<Hash, HashInfo>)
    requires Faithful([], base, hashes)
    ensures hashes == map[]
  {
  }

  /** The entries that are valid at index `last`. */
  function Retained(hashes: map<Hash, HashInfo>, last: nat, maxAge: nat): (kept: map<Hash, HashInfo>)
    requires forall h: Hash :: h in hashes ==> hashes[h].hashIndex <= last
    ensures KeepsValid(hashes, kept, last, maxAge) && Young(kept, last, maxAge)
  {
    map h | h in hashes && IsHashIndexValid(last, maxAge, hashes[h].hashIndex) :: hashes[h]
  }

  lemma FaithfulPart(history: seq<Registration>, base: nat, hashes: map<Hash, HashInfo>, kept: map<Hash, HashInfo>)
    requires Faithful(history, base, hashes) && forall h: Hash :: h in kept ==> h in hashes && kept[h] == hashes[h]
    ensures Faithful(history, base, kept)
  {
  }

  /** Drop the hashes that have become too old, if there are many. */
  method Retain(hashes: map<Hash, HashInfo>, last: nat, maxAge: nat, ghost history: seq<Registration>, ghost base: nat)
    returns (kept: map<Hash, HashInfo>)
    requires Faithful(history, base, hashes) && last == base + |history|
    ensures KeepsValid(hashes, kept, last, maxAge) && Faithful(history, base, kept) && |kept| <= maxAge
    ensures |hashes| < maxAge ==> kept == hashes
    ensures |hashes| >= maxAge ==> Young(kept, last, maxAge)
  {
    kept := hashes;
    IndicesBelow(history, base, hashes);
    if |hashes| >= maxAge {
      kept := Retained(hashes, last, maxAge);
      FaithfulPart(history, base, hashes, kept);
      RetainedIsBounded(history, base, kept, maxAge);
    }
  }

  /** What holds of the entries at all times. */
  ghost predicate Represents(hashes: map<Hash, HashInfo>, history: seq<Registration>, base: nat, maxAge: nat) {
    Faithful(history, base, hashes) && Covers(history, hashes, maxAge) && |hashes| <= maxAge + 1
  }

  lemma RepresentsNext(hashes: map<Hash, HashInfo>, kept: map<Hash, HashInfo>, history: seq<Registration>, base: nat,
                       maxAge: nat, r: Registration, info: HashInfo)
    requires Represents(hashes, history, base, maxAge) && KeepsValid(hashes, kept, base + |history|, maxAge)
    requires Faithful(history, base, kept) && |kept| <= maxAge
    requires info == InfoOf(r, base + |history|)
    ensures Represents(kept[r.hash := info], history + [r], base, maxAge)
  {
    FaithfulNext(history, base, kept, r, info);
    CoversNext(history, base, hashes, kept, maxAge, r, info);
    OneMore(kept, r.hash, info);
  }

  /** The entries after one more registration. */
  method Insert(hashes: map<Hash, HashInfo>, last: nat, maxAge: nat, r: Registration, ghost history: seq<Registration>,
                ghost base: nat)
    returns (next: map<Hash, HashInfo>)
    requires Represents(hashes, history, base, maxAge) && last == base + |history|
    ensures Represents(next, history + [r], base, maxAge)
    ensures |hashes| < maxAge ==> next.Keys == hashes.Keys + {r.hash}
    ensures |hashes| >= maxAge ==> AllRecent(next, history + [r], maxAge)
  {
    var kept := Retain(hashes, last, maxAge, history, base);
    RepresentsNext(hashes, kept, history, base, maxAge, r, InfoOf(r, last));
    next := kept[r.hash := InfoOf(r, last)];
    if |hashes| >= maxAge { RecentNext(kept, history, base, maxAge, r); }
  }

  /** Every hash held is in the window. */
  ghost predicate AllRecent(hashes: map<Hash, HashInfo>, history: seq<Registration>, maxAge: nat) {
    forall h: Hash :: h in hashes ==> IsRecent(history, h, maxAge)
  }

  lemma RecentNext(kept: map<Hash, HashInfo>, history: seq<Registration>, base: nat, maxAge: nat, r: Registration)
    requires Faithful(history, base, kept) && Young(kept, base + |history|, maxAge)
    ensures AllRecent(kept[r.hash := InfoOf(r, base + |history|)], history + [r], maxAge)
  {
    var more := history + [r];
    assert more[|history|].hash == r.hash;
    forall h: Hash | h in kept ensures IsRecent(more, h, maxAge) {
      var i := kept[h].hashIndex - base;
      assert IsLatest(history, i, h);
      assert more[i].hash == h;
    }
  }

  // ----- The queue -----

  class BlockhashQueue {
    const maxAge: nat
    var lastHashIndex: nat
    var lastHash: Option<Hash>
    var hashes: map<Hash, HashInfo>
    ghost var history: seq<Registration>
    ghost var base: nat

    constructor (maxAge: nat)
      ensures Valid() && history == [] && this.maxAge == maxAge
    {
      this.maxAge := maxAge;
      lastHashIndex, lastHash, hashes := 0, None, map[];
      history, base := [], 1;
    }

    ghost predicate Valid()
      reads this
    {
      && base <= 1 && lastHashIndex + 1 == base + |history|
      && lastHash == (if history == [] then None else Some(history[|history| - 1].hash))
      && Represents(hashes, history, base, maxAge)
    }

    /** The first hash of all, with index 0. */
    method GenesisHash(hash: Hash, lamportsPerSignature: nat, timestamp: nat)
      requires Valid() && history == []
      modifies this
      ensures Valid() && history == [Registration(hash, lamportsPerSignature, timestamp)]
    {
      NothingYet(base, hashes);
      OneMore(hashes, hash, HashInfo(lamportsPerSignature, 0, timestamp));
      hashes := hashes[hash := HashInfo(lamportsPerSignature, 0, timestamp)];
      lastHash := Some(hash);
      history, base := [Registration(hash, lamportsPerSignature, timestamp)], 0;
    }

    /** Register the next hash, dropping hashes that have become too old when there are many. */
    method RegisterHash(hash: Hash, lamportsPerSignature: nat, timestamp: nat)
      requires Valid()
      modifies this
      ensures Valid() && history == old(history) + [Registration(hash, lamportsPerSignature, timestamp)]
      ensures |old(hashes)| < maxAge ==> hashes.Keys == old(hashes).Keys + {hash}
      ensures |old(hashes)| >= maxAge ==> AllRecent(hashes, history, maxAge)
    {
      var r := Registration(hash, lamportsPerSignature, timestamp);
      lastHashIndex := lastHashIndex + 1;
      hashes := Insert(hashes, lastHashIndex, maxAge, r, history, base);
      lastHash := Some(hash);
      history := history + [r];
    }

    /** The info of a hash if its age is no more than `age`. */
    function GetHashInfoIfValid(hash: Hash, age: nat): (info: Option<HashInfo>)
      requires Valid()
      reads this
      ensures info.Some? ==> IsRecent(history, hash, age)
      ensures age <= maxAge ==> (info.Some? <==> IsRecent(history, hash, age))
      ensures info.Some? ==>
                exists i :: IsLatest(history, i, hash) && info.value.hashIndex == base + i
                            && info.value.lamportsPerSignature == history[i].lamportsPerSignature
                            && info.value.timestamp == history[i].timestamp
    {
      ValidIsRecent(history, base, hashes, maxAge, hash, age);
      if hash in hashes && IsHashIndexValid(lastHashIndex, age, hashes[hash].hashIndex) then Some(hashes[hash])
      else None
    }

    predicate IsHashValidForAge(hash: Hash, age: nat)
      requires Valid()
      reads this
      ensures age <= maxAge ==> (IsHashValidForAge(hash, age) <==> IsRecent(history, hash, age))
    {
      GetHashInfoIfValid(hash, age).Some?
    }

    /** How many registrations ago a hash was last registered. */
    function GetHashAge(hash: Hash): (age: Option<nat>)
      requires Valid()
      reads this
      ensures age.Some? ==> IsLatest(history, |history| - 1 - age.value, hash)
      ensures age.None? ==> !IsRecent(history, hash, maxAge)
    {
      ValidIsRecent(history, base, hashes, maxAge, hash, maxAge);
      if hash in hashes then Some(lastHashIndex - hashes[hash].hashIndex) else None
    }
  }
}
