/** Sorting the accounts of a storage by pubkey and keeping the most recent of each. */
module SortDedup {
  import opened Types

  /** An account found in a storage: its key and where it is. */
  datatype Found = Found(key: Pubkey, offset: Offset)

  ghost predicate Sorted(s: seq<Found>) {
    forall i, j :: 0 <= i < j < |s| ==> s[i].key <= s[j].key
  }

  ghost predicate StrictlyIncreasing(s: seq<Found>) {
    forall i, j :: 0 <= i < j < |s| ==> s[i].key < s[j].key
  }

  /** The accounts with a key, in order. */
  ghost function OfKey(s: seq<Found>, k: Pubkey): (some: seq<Found>) {
    if s == [] then []
    else
      var n := |s| - 1;
      OfKey(s[..n], k) + if s[n].key == k then [s[n]] else []
  }

  // ----- The stable sort -----

  function InsertStable(sorted: seq<Found>, x: Found): (more: seq<Found>)
    ensures |more| == |sorted| + 1
  {
    var n := |sorted| - 1;
    if sorted == [] || sorted[n].key <= x.key then sorted + [x]
    else InsertStable(sorted[..n], x) + [sorted[n]]
  }

  function StableSort(s: seq<Found>): (sorted: seq<Found>)
    ensures |sorted| == |s|
  {
    if s == [] then [] else InsertStable(StableSort(s[..|s| - 1]), s[|s| - 1])
  }

  /** Inserting puts an account after those with its key. */
  lemma {:induction false} InsertIsStable(sorted: seq<Found>, x: Found, k: Pubkey)
    ensures OfKey(InsertStable(sorted, x), k) == OfKey(sorted, k) + if x.key == k then [x] else []
  {
    var n := |sorted| - 1;
    if sorted == [] || sorted[n].key <= x.key {
      assert (sorted + [x])[..|sorted|] == sorted;
    } else {
      InsertIsStable(sorted[..n], x, k);
      var more := InsertStable(sorted[..n], x);
      assert (more + [sorted[n]])[..|more|] == more;
    }
  }

  lemma {:induction false} InsertBounds(sorted: seq<Found>, x: Found, top: Pubkey)
    requires x.key <= top && forall i :: 0 <= i < |sorted| ==> sorted[i].key <= top
    ensures forall i :: 0 <= i < |InsertStable(sorted, x)| ==> InsertStable(sorted, x)[i].key <= top
  {
    var n := |sorted| - 1;
    if sorted != [] && sorted[n].key > x.key { InsertBounds(sorted[..n], x, top); }
  }

  lemma {:induction false} InsertKeepsSorted(sorted: seq<Found>, x: Found)
    requires Sorted(sorted)
    ensures Sorted(InsertStable(sorted, x))
  {
    var n := |sorted| - 1;
    if sorted != [] && sorted[n].key > x.key {
      InsertKeepsSorted(sorted[..n], x);
      InsertBounds(sorted[..n], x, sorted[n].key);
    }
  }

  /** The sort orders by key and keeps the order within each key. */
  lemma {:induction false} SortMeaning(s: seq<Found>, k: Pubkey)
    ensures Sorted(StableSort(s)) && OfKey(StableSort(s), k) == OfKey(s, k)
  {
    if s != [] {
      var n := |s| - 1;
      SortMeaning(s[..n], k);
      InsertKeepsSorted(StableSort(s[..n]), s[n]);
      InsertIsStable(StableSort(s[..n]), s[n], k);
    }
  }

  // ----- Keeping the last of each run -----

  /** Keep `x` instead of the last account kept if that has its key, else after it. */
  ghost function Replace(kept: seq<Found>, x: Found): (more: seq<Found>) {
    var m := |kept| - 1;
    if kept != [] && kept[m].key == x.key then kept[..m] + [x] else kept + [x]
  }

  ghost function KeepLast(s: seq<Found>): (kept: seq<Found>)
    ensures |kept| <= |s| && (s != [] ==> kept != [] && kept[|kept| - 1] == s[|s| - 1])
  {
    if s == [] then [] else Replace(KeepLast(s[..|s| - 1]), s[|s| - 1])
  }

  lemma ReplaceIncreases(kept: seq<Found>, x: Found)
    requires StrictlyIncreasing(kept) && (kept != [] ==> kept[|kept| - 1].key <= x.key)
    ensures StrictlyIncreasing(Replace(kept, x))
  {
    var m, more := |kept| - 1, Replace(kept, x);
    forall i, j | 0 <= i < j < |more| ensures more[i].key < more[j].key {
      assert more[i] == kept[i];
      assert i < m ==> kept[i].key < kept[m].key;
    }
  }

  lemma {:induction false} KeptIncreases(s: seq<Found>)
    requires Sorted(s)
    ensures StrictlyIncreasing(KeepLast(s))
  {
    if s != [] {
      KeptIncreases(s[..|s| - 1]);
      ReplaceIncreases(KeepLast(s[..|s| - 1]), s[|s| - 1]);
    }
  }

  /** What one more account, with the highest key yet, changes in what is kept. */
  lemma KeptChanges(kept: seq<Found>, y: Found, x: Found)
    requires StrictlyIncreasing(kept) && (kept != [] ==> kept[|kept| - 1].key <= y.key)
    ensures x in Replace(kept, y) <==> if x.key == y.key then x == y else x in kept
  {
    var m := |kept| - 1;
    if kept != [] {
      assert kept == kept[..m] + [kept[m]];
      assert forall i :: 0 <= i < m ==> kept[i].key < kept[m].key;
    }
  }

  /** Of each key the last account is kept, and nothing else. */
  lemma {:induction false} KeptIsLast(s: seq<Found>, x: Found)
    requires Sorted(s)
    ensures x in KeepLast(s) <==> EndsWith(OfKey(s, x.key), x)
  {
    if s != [] {
      var n := |s| - 1;
      KeptIsLast(s[..n], x);
      KeptIncreases(s[..n]);
      KeptChanges(KeepLast(s[..n]), s[n], x);
      OfKeyEnds(s, x);
    }
  }

  ghost predicate EndsWith(s: seq<Found>, x: Found) {
    s != [] && s[|s| - 1] == x
  }

  lemma OfKeyEnds(s: seq<Found>, x: Found)
    requires s != []
    ensures EndsWith(OfKey(s, x.key), x) <==>
            if s[|s| - 1].key == x.key then s[|s| - 1] == x else EndsWith(OfKey(s[..|s| - 1], x.key), x)
  {
  }

  /** The last account of a key is the last place where the key occurs. */
  lemma {:induction false} LastOfKey(s: seq<Found>, x: Found)
    ensures EndsWith(OfKey(s, x.key), x) <==> IsLastOccurrence(s, x)
  {
    if s != [] {
      var n := |s| - 1;
      LastOfKey(s[..n], x);
      if s[n].key == x.key {
        assert s[n] == x ==> IsLastAt(s, n, x);
      } else {
        forall i | IsLastAt(s[..n], i, x) ensures IsLastAt(s, i, x) {}
        forall i | IsLastAt(s, i, x) ensures IsLastAt(s[..n], i, x) {}
      }
    }
  }

  ghost predicate IsLastAt(s: seq<Found>, i: int, x: Found) {
    0 <= i < |s| && s[i] == x && forall j :: i < j < |s| ==> s[j].key != x.key
  }

  ghost predicate IsLastOccurrence(s: seq<Found>, x: Found) {
    exists i :: IsLastAt(s, i, x)
  }

  /** What the accounts are after sorting and removing duplicates. */
  ghost function Deduplicated(s: seq<Found>): (kept: seq<Found>) {
    KeepLast(StableSort(s))
  }

  /** Keys strictly increase, and exactly the last occurrence of each key is kept. */
  lemma DeduplicatedMeaning(s: seq<Found>, x: Found)
    ensures StrictlyIncreasing(Deduplicated(s))
    ensures x in Deduplicated(s) <==> IsLastOccurrence(s, x)
  {
    SortMeaning(s, x.key);
    KeptIncreases(StableSort(s));
    KeptIsLast(StableSort(s), x);
    LastOfKey(s, x);
  }

  /** No key is lost. */
  lemma {:induction false} KeysAreKept(s: seq<Found>, k: Pubkey)
    ensures (exists x :: x in Deduplicated(s) && x.key == k) <==> exists i :: 0 <= i < |s| && s[i].key == k
  {
    if i :| 0 <= i < |s| && s[i].key == k {
      var last := LastWithKey(s, i);
      DeduplicatedMeaning(s, s[last]);
      assert IsLastAt(s, last, s[last]);
    }
    forall x | x in Deduplicated(s) && x.key == k ensures exists i :: 0 <= i < |s| && s[i].key == k {
      DeduplicatedMeaning(s, x);
      var i :| IsLastAt(s, i, x);
    }
  }

  lemma {:induction false} LastWithKey(s: seq<Found>, i: nat) returns (last: nat)
    requires i < |s|
    ensures i <= last < |s| && s[last].key == s[i].key && forall j :: last < j < |s| ==> s[j].key != s[i].key
    decreases |s| - i
  {
    if j :| i < j < |s| && s[j].key == s[i].key {
      last := LastWithKey(s, j);
    } else {
      last := i;
    }
  }

  // ----- In place -----

  lemma KeepNext(sorted: seq<Found>, curr: nat)
    requires 0 < curr < |sorted|
    ensures KeepLast(sorted[..curr + 1]) == Replace(KeepLast(sorted[..curr]), sorted[curr])
  {
    assert sorted[..curr + 1][..curr] == sorted[..curr];
  }

  /** The array midway: what is kept so far, then anything, then what is still to come. */
  ghost predicate Compacted(all: seq<Found>, kept: seq<Found>, sorted: seq<Found>, last: nat, curr: nat) {
    && |all| == |sorted| && last < curr <= |sorted|
    && kept == KeepLast(sorted[..curr]) && |kept| == last + 1
    && (forall i :: 0 <= i <= last ==> all[i] == kept[i])
    && (forall i :: curr <= i < |sorted| ==> all[i] == sorted[i])
  }

  lemma CompactNext(all: seq<Found>, kept: seq<Found>, sorted: seq<Found>, last: nat, curr: nat)
    requires Compacted(all, kept, sorted, last, curr) && curr < |sorted|
    ensures var next := if all[curr].key != all[last].key then last + 1 else last;
            Compacted(all[next := all[curr]], Replace(kept, all[curr]), sorted, next, curr + 1)
  {
    KeepNext(sorted, curr);
  }

  /** Move each account down over the duplicates before it. */
  method Compact(accounts: array<Found>) returns (len: nat)
    requires accounts.Length > 1
    modifies accounts
    ensures len <= accounts.Length && accounts[..len] == KeepLast(old(accounts[..]))
  {
    ghost var sorted := accounts[..];
    var last, curr := 0, 1;
    ShortIsKept(sorted[..1]);
    ghost var kept := sorted[..1];
    while curr < accounts.Length
      invariant 0 <= last < curr <= accounts.Length && Compacted(accounts[..], kept, sorted, last, curr)
    {
      var x := accounts[curr];
      CompactNext(accounts[..], kept, sorted, last, curr);
      kept := Replace(kept, x);
      if x.key != accounts[last].key {
        last := last + 1;
      }
      accounts[last] := x;
      curr := curr + 1;
    }
    len := last + 1;
    assert sorted[..curr] == sorted;
    assert accounts[..len] == kept;
  }

  lemma ShortIsKept(s: seq<Found>)
    requires |s| <= 1
    ensures KeepLast(s) == s
  {
    if |s| == 1 { assert s[..0] == []; }
  }

  /** Sort and keep the last account of each key; returns how many accounts are left and how many were removed. */
  method SortAndRemoveDups(accounts: array<Found>) returns (len: nat, removed: nat)
    modifies accounts
    ensures len <= accounts.Length && accounts[..len] == Deduplicated(old(accounts[..]))
    ensures removed == accounts.Length - len
  {
    var sorted := StableSort(accounts[..]);
    forall i | 0 <= i < accounts.Length { accounts[i] := sorted[i]; }
    assert accounts[..] == sorted;
    len := accounts.Length;
    if accounts.Length > 1 {
      len := Compact(accounts);
    } else {
      ShortIsKept(sorted);
    }
    removed := accounts.Length - len;
  }
}
