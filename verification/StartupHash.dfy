/** The two ways to compute the accounts hash at startup, from the storages and from the index, agree. */
module StartupHash {
  import opened Types
  import opened Sequences
  import opened LatticeHash
  import opened StartupScan
  import opened StartupTotals

  /** For each key the slots of its slot list and the account each entry leads to. */
  type Index = map<Pubkey, map<Slot, Account>>

  /** Index generation entered every stored version, under its key, and nothing else. */
  ghost predicate Indexes(index: Index, db: Contents) {
    && (forall k: Pubkey :: k in index ==> index[k].Keys != {})
    && (forall v: Version :: v in db <==> v.key in index && v.slot in index[v.key])
    && (forall v: Version :: v in db ==> index[v.key][v.slot] == db[v])
  }

  ghost predicate IsNewest(db: Contents, v: Version) {
    forall w: Version :: w in db && w.key == v.key ==> w.slot <= v.slot
  }

  /** The newest versions of some keys, or the older ones. */
  ghost function VersionsOf(db: Contents, keys: set<Pubkey>, newest: bool): (versions: set<Version>)
    ensures versions <= db.Keys
  {
    set v | v in db && v.key in keys && IsNewest(db, v) == newest
  }

  ghost function KeysOf(db: Contents): (keys: set<Pubkey>) {
    set v | v in db :: v.key
  }

  ghost function Newest(db: Contents): (versions: set<Version>)
    ensures versions <= db.Keys
  {
    VersionsOf(db, KeysOf(db), true)
  }

  ghost function Older(db: Contents): (versions: set<Version>)
    ensures versions <= db.Keys
  {
    VersionsOf(db, KeysOf(db), false)
  }

  lemma NewestAndOlder(db: Contents)
    ensures Newest(db) == db.Keys - Older(db)
  {
    forall v: Version | v in db ensures v.key in KeysOf(db) {}
  }

  /** What the newest versions of some keys, or the older ones, add up to. */
  ghost function SumOf(hasher: Hasher, db: Contents, keys: set<Pubkey>, newest: bool): (t: Tally) {
    Sum(Values(hasher, db), VersionsOf(db, keys, newest))
  }

  /** Disjoint sets of keys contribute separately. */
  lemma SumOfKeys(hasher: Hasher, db: Contents, a: set<Pubkey>, b: set<Pubkey>, newest: bool)
    requires a !! b
    ensures SumOf(hasher, db, a + b, newest) == Plus(SumOf(hasher, db, a, newest), SumOf(hasher, db, b, newest))
  {
    assert VersionsOf(db, a + b, newest) == VersionsOf(db, a, newest) + VersionsOf(db, b, newest);
    SumUnion(Values(hasher, db), VersionsOf(db, a, newest), VersionsOf(db, b, newest));
  }

  // ----- From the index -----

  /** The highest slot of a slot list. */
  method NewestSlot(slots: map<Slot, Account>) returns (top: Slot)
    requires slots.Keys != {}
    ensures top in slots && forall s :: s in slots ==> s <= top
  {
    ghost var highest := MaxSlot(slots.Keys);
    assert highest in slots && forall s :: s in slots ==> s <= highest;
    top :| top in slots && forall s :: s in slots ==> s <= top;
  }

  /** The highest slot of a slot list that is not above `maxRoot`, if there is one. */
  method LatestSlot(slots: map<Slot, Account>, maxRoot: Slot) returns (top: Option<Slot>)
    ensures top.Some? ==> top.value in slots && top.value <= maxRoot
    ensures top.Some? ==> forall s :: s in slots && s <= maxRoot ==> s <= top.value
    ensures top.None? ==> forall s :: s in slots ==> s > maxRoot
  {
    var rooted := map s | s in slots && s <= maxRoot :: slots[s];
    assert forall s :: s in slots && s <= maxRoot ==> s in rooted;
    if rooted.Keys == {} {
      return None;
    }
    var highest := NewestSlot(rooted);
    top := Some(highest);
  }

  /** Nothing is stored in a slot above the startup slot. */
  ghost predicate UpTo(db: Contents, startupSlot: Slot) {
    forall v: Version :: v in db ==> v.slot <= startupSlot
  }

  lemma NewestOfKey(index: Index, db: Contents, k: Pubkey, top: Slot)
    requires Indexes(index, db) && k in index
    requires top in index[k] && forall s :: s in index[k] ==> s <= top
    ensures Version(k, top) in db && VersionsOf(db, {k}, true) == {Version(k, top)}
  {
    var v := Version(k, top);
    assert IsNewest(db, v);
    forall w: Version | w in VersionsOf(db, {k}, true) ensures w == v {
      assert w.slot <= top <= w.slot;
    }
  }

  lemma {:induction false} SumOfOne(values: map<Version, Tally>, v: Version)
    requires v in values
    ensures Sum(values, {v}) == Plus(Nothing(), values[v])
  {
    SumPutIn(values, {}, v);
    assert {} + {v} == {v};
  }

  /** The next key contributes the hash of its newest version, if that is funded. */
  lemma NewestStep(hasher: Hasher, index: Index, db: Contents, keys: set<Pubkey>, k: Pubkey, top: Slot)
    requires Indexes(index, db) && k in index && k !in keys
    requires top in index[k] && forall s :: s in index[k] ==> s <= top
    ensures var h := SumOf(hasher, db, keys, true).hash;
            SumOf(hasher, db, keys + {k}, true).hash ==
            if index[k][top].lamports != 0 then Add(h, LtHashAccount(hasher, k, index[k][top])) else h
  {
    SumOfKeys(hasher, db, keys, {k}, true);
    NewestOfKey(index, db, k, top);
    SumOfOne(Values(hasher, db), Version(k, top));
    SkipsUnfunded(SumOf(hasher, db, keys, true).hash, hasher, k, index[k][top]);
  }

  /** Mix the newest version of each key of some bins into a thread's hash. */
  method HashBins(hasher: Hasher, index: Index, keys: seq<Pubkey>, startupSlot: Slot, ghost db: Contents)
    returns (h: LtHash)
    requires Indexes(index, db) && UpTo(db, startupSlot) && Distinct(keys) && (forall k :: k in keys ==> k in index)
    ensures h == SumOf(hasher, db, Members(keys), true).hash
  {
    h := Identity();
    for i := 0 to |keys|
      invariant h == SumOf(hasher, db, Members(keys[..i]), true).hash
    {
      var k := keys[i];
      assert forall s :: s in index[k] ==> Version(k, s) in db;
      var latest := LatestSlot(index[k], startupSlot);
      MembersOfPrefix(keys, i);
      NewestStep(hasher, index, db, Members(keys[..i]), k, latest.value);
      if latest.Some? && index[k][latest.value].lamports != 0 {
        h := Add(h, LtHashAccount(hasher, k, index[k][latest.value]));
      }
    }
    assert keys[..|keys|] == keys;
  }

  lemma SkipsUnfunded(h: LtHash, hasher: Hasher, k: Pubkey, account: Account)
    ensures var one := Plus(Nothing(), Tally(LtHashAccount(hasher, k, account), FundedDataLen(account), 1));
            Add(h, one.hash) == if account.lamports != 0 then Add(h, LtHashAccount(hasher, k, account)) else h
  {
    AddIdentity(h);
    AddCommutes(Identity(), LtHashAccount(hasher, k, account));
    AddIdentity(LtHashAccount(hasher, k, account));
  }

  lemma {:induction false} KeysOfThread(parts: seq<seq<Pubkey>>, t: nat)
    requires Distinct(Flatten(parts)) && t < |parts|
    ensures Distinct(parts[t]) && (forall k :: k in parts[t] ==> k in Flatten(parts))
    ensures Members(Flatten(parts[..t + 1])) == Members(Flatten(parts[..t])) + Members(parts[t])
    ensures Members(Flatten(parts[..t])) !! Members(parts[t])
  {
    var all, upTo, before := Flatten(parts), Flatten(parts[..t + 1]), Flatten(parts[..t]);
    FlattenNext(parts, t);
    var n := |before|;
    forall i | 0 <= i < |parts[t]| ensures parts[t][i] == all[n + i] && parts[t][i] !in before {
      assert upTo[n + i] == parts[t][i];
      forall j | 0 <= j < n ensures before[j] != parts[t][i] { assert all[j] == before[j]; }
    }
  }

  /** The hash the index leads to, however its keys are split among threads. */
  method HashFromIndex(hasher: Hasher, index: Index, parts: seq<seq<Pubkey>>, startupSlot: Slot, ghost db: Contents)
    returns (h: LtHash)
    requires Indexes(index, db) && UpTo(db, startupSlot) && Distinct(Flatten(parts))
    requires Members(Flatten(parts)) == index.Keys
    ensures h == Sum(Values(hasher, db), Newest(db)).hash
  {
    h := Identity();
    for t := 0 to |parts|
      invariant h == SumOf(hasher, db, Members(Flatten(parts[..t])), true).hash
    {
      KeysOfThread(parts, t);
      SumOfKeys(hasher, db, Members(Flatten(parts[..t])), Members(parts[t]), true);
      var threadHash := HashBins(hasher, index, parts[t], startupSlot, db);
      h := Add(h, threadHash);
    }
    assert parts[..|parts|] == parts;
    assert VersionsOf(db, index.Keys, true) == Newest(db);
  }

  // ----- Duplicates -----

  /** What visiting duplicate keys finds; there is no hash when obsolete accounts are marked instead. */
  datatype Visited = Visited(dataLen: int, count: int, hash: Option<LtHash>)

  function Report(t: Tally, marking: bool): (found: Visited) {
    Visited(t.dataLen, t.count, if marking then None else Some(t.hash))
  }

  function Reduce(a: Visited, b: Visited): (both: Visited) {
    Visited(a.dataLen + b.dataLen, a.count + b.count,
            if a.hash.Some? && b.hash.Some? then Some(Add(a.hash.value, b.hash.value))
            else if a.hash.Some? then a.hash
            else b.hash)
  }

  lemma ReducePlus(a: Tally, b: Tally, marking: bool)
    ensures Reduce(Report(a, marking), Report(b, marking)) == Report(Plus(a, b), marking)
  {
  }

  /** The hash to mix out; none at all means there is nothing to mix out. */
  function ToMixOut(found: Visited): (h: LtHash) {
    if found.hash.Some? then found.hash.value else Identity()
  }

  ghost function OlderEntries(k: Pubkey, slots: set<Slot>, top: Slot): (versions: set<Version>) {
    set s | s in slots && s != top :: Version(k, s)
  }

  lemma OlderOfKey(index: Index, db: Contents, k: Pubkey, top: Slot)
    requires Indexes(index, db) && k in index
    requires top in index[k] && forall s :: s in index[k] ==> s <= top
    ensures VersionsOf(db, {k}, false) == OlderEntries(k, index[k].Keys, top)
  {
    assert Version(k, top) in db;
    forall v: Version ensures v in VersionsOf(db, {k}, false) <==> v in OlderEntries(k, index[k].Keys, top) {
      if v in db && v.key == k {
        if v.slot == top {
          assert forall w: Version :: w in db && w.key == k ==> w.slot in index[k];
          assert IsNewest(db, v);
        } else {
          assert !IsNewest(db, v);
        }
      }
    }
  }

  lemma OlderStep(hasher: Hasher, index: Index, db: Contents, k: Pubkey, done: set<Slot>, s: Slot, top: Slot)
    requires Indexes(index, db) && k in index && done <= index[k].Keys && s in index[k] && s !in done
    ensures OlderEntries(k, done, top) <= db.Keys && OlderEntries(k, done + {s}, top) <= db.Keys
    ensures var t := Sum(Values(hasher, db), OlderEntries(k, done, top));
            var account := index[k][s];
            Sum(Values(hasher, db), OlderEntries(k, done + {s}, top)) ==
            if s == top then t else Plus(t, Tally(LtHashAccount(hasher, k, account), FundedDataLen(account), 1))
  {
    var v := Version(k, s);
    assert v in db;
    if s == top {
      assert OlderEntries(k, done + {s}, top) == OlderEntries(k, done, top);
    } else {
      assert OlderEntries(k, done + {s}, top) == OlderEntries(k, done, top) + {v};
      SumPutIn(Values(hasher, db), OlderEntries(k, done, top), v);
    }
  }

  /** Add up every entry of a slot list but the one in the highest slot. */
  method VisitKey(hasher: Hasher, index: Index, k: Pubkey, ghost db: Contents) returns (t: Tally)
    requires Indexes(index, db) && k in index
    ensures t == SumOf(hasher, db, {k}, false)
  {
    t := Nothing();
    var top := NewestSlot(index[k]);
    OlderOfKey(index, db, k, top);
    var todo := index[k].Keys;
    ghost var done: set<Slot> := {};
    while todo != {}
      invariant todo + done == index[k].Keys && todo !! done
      invariant OlderEntries(k, done, top) <= db.Keys && t == Sum(Values(hasher, db), OlderEntries(k, done, top))
    {
      var s: Slot :| s in todo;
      OlderStep(hasher, index, db, k, done, s, top);
      if s != top {
        var account := index[k][s];
        t := Plus(t, Tally(LtHashAccount(hasher, k, account), FundedDataLen(account), 1));
      }
      todo, done := todo - {s}, done + {s};
    }
    assert done == index[k].Keys;
  }

  /** A key with one version has no older one. */
  lemma LoneVersion(index: Index, db: Contents, k: Pubkey)
    requires Indexes(index, db) && k in index && |index[k]| <= 1
    ensures VersionsOf(db, {k}, false) == {}
  {
    forall v: Version | v in db && v.key == k ensures IsNewest(db, v) {
      forall w: Version | w in db && w.key == k ensures w.slot <= v.slot {
        assert index[k].Keys >= {v.slot, w.slot};
        CardinalityOfPair(index[k].Keys, v.slot, w.slot);
      }
    }
  }

  lemma CardinalityOfPair(s: set<Slot>, a: Slot, b: Slot)
    requires a in s && b in s && |s| <= 1
    ensures a == b
  {
    assert |s - {a}| == 0;
  }

  lemma LoneKeyAddsNothing(hasher: Hasher, index: Index, db: Contents, keys: set<Pubkey>, k: Pubkey)
    requires Indexes(index, db) && k in index && k !in keys && |index[k]| <= 1
    ensures SumOf(hasher, db, keys + {k}, false) == SumOf(hasher, db, keys, false)
  {
    LoneVersion(index, db, k);
    forall v: Version | v in VersionsOf(db, keys + {k}, false) ensures v in VersionsOf(db, keys, false) {
      assert v !in VersionsOf(db, {k}, false);
    }
    assert VersionsOf(db, keys + {k}, false) == VersionsOf(db, keys, false);
  }

  lemma VisitStep(hasher: Hasher, index: Index, db: Contents, keys: seq<Pubkey>, i: nat)
    requires Indexes(index, db) && Distinct(keys) && i < |keys| && keys[i] in index
    ensures var before, after := SumOf(hasher, db, Members(keys[..i]), false),
              SumOf(hasher, db, Members(keys[..i + 1]), false);
            after == if |index[keys[i]]| > 1 then Plus(before, SumOf(hasher, db, {keys[i]}, false)) else before
  {
    MembersOfPrefix(keys, i);
    if |index[keys[i]]| > 1 {
      SumOfKeys(hasher, db, Members(keys[..i]), {keys[i]}, false);
    } else {
      LoneKeyAddsNothing(hasher, index, db, Members(keys[..i]), keys[i]);
    }
  }

  /** Add up the older versions of some keys. */
  method VisitDuplicates(hasher: Hasher, index: Index, keys: seq<Pubkey>, marking: bool, ghost db: Contents)
    returns (found: Visited)
    requires Indexes(index, db) && Distinct(keys) && forall k :: k in keys ==> k in index
    ensures found == Report(SumOf(hasher, db, Members(keys), false), marking)
  {
    found := Report(Nothing(), marking);
    ghost var sum := Nothing();
    for i := 0 to |keys|
      invariant found == Report(sum, marking) && sum == SumOf(hasher, db, Members(keys[..i]), false)
    {
      var k := keys[i];
      VisitStep(hasher, index, db, keys, i);
      if |index[k]| > 1 {
        var t := VisitKey(hasher, index, k, db);
        ReducePlus(sum, t, marking);
        found, sum := Reduce(found, Report(t, marking)), Plus(sum, t);
      }
    }
    assert keys[..|keys|] == keys;
  }

  /** Every key with more than one version is among the keys visited. */
  ghost predicate CoversDuplicates(index: Index, keys: seq<Pubkey>) {
    forall k: Pubkey :: k in index && |index[k]| > 1 ==> k in keys
  }

  lemma CoveredIsOlder(index: Index, db: Contents, keys: seq<Pubkey>)
    requires Indexes(index, db) && CoversDuplicates(index, keys)
    ensures VersionsOf(db, Members(keys), false) == Older(db)
  {
    forall v: Version | v in Older(db) ensures v.key in keys {
      assert v in VersionsOf(db, {v.key}, false);
      if |index[v.key]| <= 1 { LoneVersion(index, db, v.key); }
    }
    forall v: Version | v in db ensures v.key in KeysOf(db) {}
  }

  /** Visit the duplicate keys chunk by chunk. */
  method VisitAllDuplicates(hasher: Hasher, index: Index, chunks: seq<seq<Pubkey>>, marking: bool, ghost db: Contents)
    returns (found: Visited)
    requires Indexes(index, db) && Distinct(Flatten(chunks)) && (forall k :: k in Flatten(chunks) ==> k in index)
    requires CoversDuplicates(index, Flatten(chunks))
    ensures found.dataLen == Sum(Values(hasher, db), Older(db)).dataLen && found.count == |Older(db)|
    ensures ToMixOut(found) == if marking then Identity() else Sum(Values(hasher, db), Older(db)).hash
  {
    found := Visited(0, 0, None);
    for t := 0 to |chunks|
      invariant Reports(found, SumOf(hasher, db, Members(Flatten(chunks[..t])), false), marking)
    {
      KeysOfThread(chunks, t);
      SumOfKeys(hasher, db, Members(Flatten(chunks[..t])), Members(chunks[t]), false);
      var chunk := VisitDuplicates(hasher, index, chunks[t], marking, db);
      ReduceReports(found, SumOf(hasher, db, Members(Flatten(chunks[..t])), false),
                    SumOf(hasher, db, Members(chunks[t]), false), marking);
      found := Reduce(found, chunk);
    }
    assert chunks[..|chunks|] == chunks;
    CoveredIsOlder(index, db, Flatten(chunks));
    CountOfSum(hasher, db, Older(db));
  }

  /** What has been found so far stands for a tally. */
  ghost predicate Reports(found: Visited, t: Tally, marking: bool) {
    && found.dataLen == t.dataLen && found.count == t.count
    && ToMixOut(found) == (if marking then Identity() else t.hash)
    && (marking ==> found.hash.None?)
  }

  lemma ReduceReports(found: Visited, t: Tally, chunk: Tally, marking: bool)
    requires Reports(found, t, marking)
    ensures Reports(Reduce(found, Report(chunk, marking)), Plus(t, chunk), marking)
  {
    AddCommutes(Identity(), chunk.hash);
    AddIdentity(chunk.hash);
  }

  lemma {:induction false} CountOfSum(hasher: Hasher, db: Contents, s: set<Version>)
    requires s <= db.Keys
    ensures Sum(Values(hasher, db), s).count == |s| && Sum(Values(hasher, db), s).dataLen >= 0
    decreases |s|
  {
    if s != {} {
      var v: Version :| v in s;
      SumTakeOut(Values(hasher, db), s, v);
      CountOfSum(hasher, db, s - {v});
    }
  }

  // ----- Taking the older versions out of the index -----

  /** The database without its older versions. */
  ghost function NewestOnly(db: Contents): (newest: Contents)
    ensures newest.Keys == Newest(db)
  {
    map v | v in Newest(db) :: db[v]
  }

  ghost predicate IsTop(slots: map<Slot, Account>, s: Slot) {
    s in slots && forall t :: t in slots ==> t <= s
  }

  /** A slot list cut down to its highest slot. */
  ghost function TopOnly(slots: map<Slot, Account>): (left: map<Slot, Account>) {
    map s | s in slots && IsTop(slots, s) :: slots[s]
  }

  ghost function NewestEntries(index: Index): (left: Index) {
    map k | k in index :: TopOnly(index[k])
  }

  lemma OneIsTop(slots: map<Slot, Account>, top: Slot)
    requires IsTop(slots, top)
    ensures TopOnly(slots) == map[top := slots[top]]
  {
  }

  lemma LoneIsTop(slots: map<Slot, Account>)
    requires |slots| <= 1
    ensures TopOnly(slots) == slots
  {
    forall s, t | s in slots && t in slots ensures s == t { CardinalityOfPair(slots.Keys, s, t); }
  }

  /** The slot lists of the keys dealt with are cut down, the others are as they were. */
  ghost predicate CutDown(index: Index, left: Index, keys: seq<Pubkey>) {
    && left.Keys == index.Keys
    && (forall k: Pubkey :: k in index ==> left[k] == if k in keys then TopOnly(index[k]) else index[k])
  }

  lemma NextCutDown(index: Index, left: Index, keys: seq<Pubkey>, i: nat, top: Slot)
    requires i < |keys| && Distinct(keys) && keys[i] in index && CutDown(index, left, keys[..i])
    requires IsTop(index[keys[i]], top)
    ensures left[keys[i]] == index[keys[i]]
    ensures CutDown(index, left[keys[i] := map[top := index[keys[i]][top]]], keys[..i + 1])
  {
    OneIsTop(index[keys[i]], top);
    assert keys[..i + 1] == keys[..i] + [keys[i]];
    assert keys[i] !in keys[..i];
  }

  /** Cut the slot lists of the keys with duplicates down to their highest slot. */
  method CleanSlotLists(index: Index, keys: seq<Pubkey>, ghost db: Contents) returns (left: Index)
    requires Indexes(index, db) && Distinct(keys) && (forall k :: k in keys ==> k in index)
    requires CoversDuplicates(index, keys)
    ensures left == NewestEntries(index)
  {
    left := index;
    for i := 0 to |keys|
      invariant CutDown(index, left, keys[..i])
    {
      var k := keys[i];
      assert left[k] == index[k];
      var top := NewestSlot(left[k]);
      NextCutDown(index, left, keys, i, top);
      left := left[k := map[top := left[k][top]]];
    }
    assert keys[..|keys|] == keys;
    forall k | k in index ensures left[k] == TopOnly(index[k]) {
      if k !in keys { LoneIsTop(index[k]); }
    }
  }

  lemma NewestIsTop(index: Index, db: Contents, v: Version)
    requires Indexes(index, db) && v in db
    ensures IsNewest(db, v) <==> IsTop(index[v.key], v.slot)
  {
    forall t | t in index[v.key] ensures Version(v.key, t) in db {}
  }

  /** What is left of the index is the index of what is left of the database. */
  lemma NewestAreIndexed(index: Index, db: Contents)
    requires Indexes(index, db)
    ensures Indexes(NewestEntries(index), NewestOnly(db))
  {
    var left, newest := NewestEntries(index), NewestOnly(db);
    forall k: Pubkey | k in left ensures left[k].Keys != {} {
      var top := MaxSlot(index[k].Keys);
      assert IsTop(index[k], top) && top in left[k];
    }
    forall v: Version ensures v in newest <==> v.key in left && v.slot in left[v.key] {
      if v in db {
        NewestIsTop(index, db, v);
        assert v.key in KeysOf(db);
      }
    }
  }

  lemma NewestAreReady(index: Index, db: Contents, startupSlot: Slot)
    requires Indexes(index, db) && UpTo(db, startupSlot)
    ensures Indexes(NewestEntries(index), NewestOnly(db)) && UpTo(NewestOnly(db), startupSlot)
    ensures NewestEntries(index).Keys == index.Keys
  {
    NewestAreIndexed(index, db);
  }

  lemma NewestStayNewest(db: Contents)
    ensures Newest(NewestOnly(db)) == Newest(db)
  {
    var newest := NewestOnly(db);
    forall v: Version | v in newest ensures v.key in KeysOf(newest) && IsNewest(newest, v) {}
  }

  /** A sum looks at nothing but what it sums. */
  lemma {:induction false} SumOfSame(a: map<Version, Tally>, b: map<Version, Tally>, s: set<Version>)
    requires s <= a.Keys && s <= b.Keys && forall v :: v in s ==> a[v] == b[v]
    ensures Sum(a, s) == Sum(b, s)
    decreases |s|
  {
    if s != {} {
      var v: Version :| v in s;
      SumTakeOut(a, s, v);
      SumTakeOut(b, s, v);
      SumOfSame(a, b, s - {v});
    }
  }

  lemma NewestSumStays(hasher: Hasher, db: Contents)
    ensures Sum(Values(hasher, NewestOnly(db)), Newest(NewestOnly(db))) == Sum(Values(hasher, db), Newest(db))
  {
    NewestStayNewest(db);
    SumOfSame(Values(hasher, NewestOnly(db)), Values(hasher, db), Newest(db));
  }

  /** The hash from the index as it is by then: without the older versions if they were marked obsolete. */
  method HashFromIndexAtStartup(hasher: Hasher, index: Index, bins: seq<seq<Pubkey>>, duplicates: seq<Pubkey>,
                                startupSlot: Slot, marking: bool, ghost db: Contents) returns (h: LtHash)
    requires Indexes(index, db) && UpTo(db, startupSlot) && Distinct(Flatten(bins))
    requires Members(Flatten(bins)) == index.Keys
    requires Distinct(duplicates) && (forall k :: k in duplicates ==> k in index) && CoversDuplicates(index, duplicates)
    ensures h == Sum(Values(hasher, db), Newest(db)).hash
  {
    if marking {
      var left := CleanSlotLists(index, duplicates, db);
      NewestAreReady(index, db, startupSlot);
      NewestSumStays(hasher, db);
      h := HashFromIndex(hasher, left, bins, startupSlot, NewestOnly(db));
    } else {
      h := HashFromIndex(hasher, index, bins, startupSlot, db);
    }
  }

  // ----- Agreement -----

  /** Every version in the database is in a storage. */
  ghost predicate Complete(storages: seq<Storage>, db: Contents) {
    AllScanned(storages, None) == db.Keys
  }

  /** Obsolete accounts as of the startup slot: none when duplicates are mixed out, all older versions otherwise. */
  ghost predicate MarksMatch(storages: seq<Storage>, db: Contents, startupSlot: Slot, marking: bool) {
    AllScanned(storages, Some(startupSlot)) == if marking then Newest(db) else db.Keys
  }

  /** Everything less the older versions is the newest ones. */
  lemma DuplicatesCancel(hasher: Hasher, db: Contents)
    ensures Minus(Sum(Values(hasher, db), db.Keys), Sum(Values(hasher, db), Older(db))) ==
            Sum(Values(hasher, db), Newest(db))
  {
    NewestAndOlder(db);
    SumDifference(Values(hasher, db), db.Keys, Older(db));
  }

  /** The versions with lamports after which their key was not stored again. */
  ghost function FundedNewest(db: Contents): (versions: set<Version>)
    ensures versions <= db.Keys
  {
    set v | v in db && db[v].lamports > 0 && forall w: Version :: w in db && w.key == v.key ==> w.slot <= v.slot
  }

  /** The accounts hash in plain terms: each element is the sum over these versions, modulo 65536. */
  ghost predicate IsAccountsHash(h: LtHash, hasher: Hasher, db: Contents) {
    forall e: nat :: e < 1024 ==> h[e] as int == ElementTotal(hasher, db, FundedNewest(db), e) % 65536
  }

  lemma FundedAreNewest(db: Contents)
    ensures Funded(db, Newest(db)) == FundedNewest(db)
  {
    forall v: Version | v in db ensures v.key in KeysOf(db) {}
  }

  lemma NewestSumsUp(hasher: Hasher, db: Contents)
    ensures IsAccountsHash(Sum(Values(hasher, db), Newest(db)).hash, hasher, db)
  {
    FundedAreNewest(db);
    forall e: nat | e < 1024
      ensures Sum(Values(hasher, db), Newest(db)).hash[e] as int ==
              ElementTotal(hasher, db, FundedNewest(db), e) % 65536
    {
      HashOfSum(hasher, db, Newest(db), e);
    }
  }

  /** The hash from the storages, duplicates left out, is the hash from the index. */
  method StartupHashes(hasher: Hasher, parts: seq<seq<Storage>>, index: Index, bins: seq<seq<Pubkey>>,
                       chunks: seq<seq<Pubkey>>, startupSlot: Slot, marking: bool, ghost storages: seq<Storage>,
                       ghost db: Contents)
    returns (fromStorages: LtHash, fromIndex: LtHash)
    requires GoodStorages(storages, db) && Dealt(parts, storages) && MarksMatch(storages, db, startupSlot, marking)
    requires Indexes(index, db) && UpTo(db, startupSlot) && Distinct(Flatten(bins))
    requires Members(Flatten(bins)) == index.Keys
    requires Distinct(Flatten(chunks)) && (forall k :: k in Flatten(chunks) ==> k in index)
    requires CoversDuplicates(index, Flatten(chunks))
    ensures fromStorages == fromIndex == Sum(Values(hasher, db), Newest(db)).hash
    ensures IsAccountsHash(fromIndex, hasher, db)
  {
    NewestSumsUp(hasher, db);
    var found := VisitAllDuplicates(hasher, index, chunks, marking, db);
    fromStorages := HashFromStorages(hasher, parts, ToMixOut(found), startupSlot, storages, db);
    fromIndex := HashFromIndexAtStartup(hasher, index, bins, Flatten(chunks), startupSlot, marking, db);
    if marking {
      AddIdentity(fromIndex);
      SubUndoesAdd(fromIndex, Identity());
    } else {
      DuplicatesCancel(hasher, db);
    }
  }

  lemma DataLenLeft(hasher: Hasher, storages: seq<Storage>, db: Contents, total: int, older: int)
    requires Complete(storages, db) && total == Sum(Values(hasher, db), AllScanned(storages, None)).dataLen
    requires older == Sum(Values(hasher, db), Older(db)).dataLen
    ensures total - older == DataTotal(db, FundedNewest(db))
  {
    DuplicatesCancel(hasher, db);
    CountOfSum(hasher, db, Newest(db));
    FundedAreNewest(db);
    DataOfSum(hasher, db, Newest(db));
  }

  /** The data length that visiting the duplicate keys finds. */
  method DuplicatesDataLen(hasher: Hasher, index: Index, chunks: seq<seq<Pubkey>>, marking: bool, ghost db: Contents)
    returns (n: int)
    requires Indexes(index, db) && Distinct(Flatten(chunks)) && (forall k :: k in Flatten(chunks) ==> k in index)
    requires CoversDuplicates(index, Flatten(chunks))
    ensures n == Sum(Values(hasher, db), Older(db)).dataLen
  {
    var found := VisitAllDuplicates(hasher, index, chunks, marking, db);
    n := found.dataLen;
  }

  /** The data length less that of duplicates is that of the newest funded versions. */
  method StartupDataLen(hasher: Hasher, parts: seq<seq<Storage>>, index: Index, chunks: seq<seq<Pubkey>>, marking: bool,
                        ghost storages: seq<Storage>, ghost db: Contents)
    returns (n: nat)
    requires GoodStorages(storages, db) && Dealt(parts, storages) && Complete(storages, db)
    requires Indexes(index, db) && Distinct(Flatten(chunks)) && (forall k :: k in Flatten(chunks) ==> k in index)
    requires CoversDuplicates(index, Flatten(chunks))
    ensures n == DataTotal(db, FundedNewest(db))
  {
    var total := DataLenFromStorages(hasher, parts, storages, db);
    var older := DuplicatesDataLen(hasher, index, chunks, marking, db);
    DataLenLeft(hasher, storages, db, total, older);
    n := total - older;
  }

  /** Without marks a scan takes everything. */
  lemma {:induction false} UnmarkedMatches(storages: seq<Storage>, db: Contents, startupSlot: Slot)
    requires Complete(storages, db) && forall s :: s in storages ==> s.marks == []
    ensures MarksMatch(storages, db, startupSlot, false)
  {
    forall v: Version ensures v in AllScanned(storages, Some(startupSlot)) <==> v in AllScanned(storages, None) {
      AllScannedHolds(storages, Some(startupSlot), v);
      AllScannedHolds(storages, None, v);
      assert forall s :: s in storages ==>
             (Holds(s, |s.entries|, Some(startupSlot), v) <==> Holds(s, |s.entries|, None, v));
    }
  }

  // ----- Marking older versions obsolete -----

  /** The marks startup adds to a storage: one for each entry that is not the newest version of its key. */
  ghost function OlderMarks(s: Storage, n: nat, db: Contents, at: Slot): (marks: seq<Obsolete>)
    requires n <= |s.entries|
  {
    if n == 0 then []
    else
      var e := s.entries[n - 1];
      OlderMarks(s, n - 1, db, at)
      + if IsNewest(db, Version(e.key, s.slot)) then [] else [Obsolete(e.offset, |e.account.data|, at)]
  }

  ghost function MarkOlder(s: Storage, db: Contents, at: Slot): (marked: Storage) {
    s.(marks := s.marks + OlderMarks(s, |s.entries|, db, at))
  }

  /** The marks are those of the older entries. */
  lemma {:induction false} InMarks(s: Storage, n: nat, db: Contents, at: Slot, m: Obsolete)
    requires n <= |s.entries|
    ensures m in OlderMarks(s, n, db, at) <==>
            exists i :: 0 <= i < n && !IsNewest(db, Version(s.entries[i].key, s.slot))
                        && m == Obsolete(s.entries[i].offset, |s.entries[i].account.data|, at)
  {
    if n > 0 { InMarks(s, n - 1, db, at, m); }
  }

  /** An entry counts as marked exactly when it is an older version. */
  lemma MarkedIfOlder(s: Storage, i: nat, db: Contents, at: Slot, startupSlot: Slot)
    requires i < |s.entries| && OffsetsDiffer(s) && s.marks == [] && at <= startupSlot
    ensures Marked(MarkOlder(s, db, at), s.entries[i], startupSlot) <==>
            !IsNewest(db, Version(s.entries[i].key, s.slot))
  {
    var e, marks := s.entries[i], OlderMarks(s, |s.entries|, db, at);
    assert MarkOlder(s, db, at).marks == marks;
    forall m: Obsolete { InMarks(s, |s.entries|, db, at, m); }
    var own := Obsolete(e.offset, |e.account.data|, at);
    if own in marks {
      var j :| 0 <= j < |marks| && marks[j] == own;
    }
    forall j | 0 <= j < |marks| && marks[j].offset == e.offset ensures own in marks {
      assert marks[j] in marks;
    }
  }

  ghost predicate OffsetsDiffer(s: Storage) {
    forall i, j :: 0 <= i < j < |s.entries| ==> s.entries[i].offset != s.entries[j].offset
  }

  /** Once older versions are marked at or before the startup slot, a scan takes exactly the newest ones. */
  lemma MarkingLeavesNewest(s: Storage, db: Contents, at: Slot, startupSlot: Slot)
    requires GoodStorage(s, db) && OffsetsDiffer(s) && s.marks == [] && at <= startupSlot
    ensures var m := MarkOlder(s, db, at);
            forall v: Version :: v in Scanned(m, |m.entries|, Some(startupSlot)) <==>
                                 v in Scanned(s, |s.entries|, None) && IsNewest(db, v)
  {
    var m := MarkOlder(s, db, at);
    assert m.marks == OlderMarks(s, |s.entries|, db, at);
    forall i: nat | i < |s.entries|
      ensures Taken(m, m.entries[i], Some(startupSlot)) <==> IsNewest(db, Version(s.entries[i].key, s.slot))
    {
      MarkedIfOlder(s, i, db, at, startupSlot);
    }
    forall v: Version
      ensures v in Scanned(m, |m.entries|, Some(startupSlot)) <==> v in Scanned(s, |s.entries|, None) && IsNewest(db, v)
    {
      ScannedHolds(m, |m.entries|, Some(startupSlot), v);
      ScannedHolds(s, |s.entries|, None, v);
    }
  }

  /** All accounts of the storage are older versions: it goes, unmarked. */
  ghost predicate DiesAtStartup(s: Storage, db: Contents) {
    s.entries != [] && forall i :: 0 <= i < |s.entries| ==> !IsNewest(db, Version(s.entries[i].key, s.slot))
  }

  /** The storages that stay, with their marks. */
  ghost function MarkAll(storages: seq<Storage>, db: Contents, at: Slot): (marked: seq<Storage>) {
    if storages == [] then []
    else
      var n := |storages| - 1;
      MarkAll(storages[..n], db, at) + if DiesAtStartup(storages[n], db) then [] else [MarkOlder(storages[n], db, at)]
  }

  lemma {:induction false} MarkedFrom(storages: seq<Storage>, db: Contents, at: Slot, m: Storage) returns (s: Storage)
    requires m in MarkAll(storages, db, at)
    ensures s in storages && m == MarkOlder(s, db, at)
  {
    var n := |storages| - 1;
    if m in MarkAll(storages[..n], db, at) {
      s := MarkedFrom(storages[..n], db, at, m);
    } else {
      s := storages[n];
    }
  }

  lemma GoodPrefix(storages: seq<Storage>, n: nat, db: Contents)
    requires GoodStorages(storages, db) && n < |storages|
    ensures GoodStorages(storages[..n], db) && forall s :: s in storages[..n] ==> s.slot != storages[n].slot
  {
    forall s | s in storages[..n] ensures s in storages && s.slot != storages[n].slot {
      var i :| 0 <= i < n && storages[..n][i] == s;
      assert storages[i] == s && storages[n] in storages;
    }
  }

  /** Marking and removing leave one storage for each slot that keeps any. */
  lemma {:induction false} MarkedAreGood(storages: seq<Storage>, db: Contents, at: Slot)
    requires GoodStorages(storages, db)
    ensures GoodStorages(MarkAll(storages, db, at), db)
  {
    if storages != [] {
      var n := |storages| - 1;
      var before, last := MarkAll(storages[..n], db, at), MarkOlder(storages[n], db, at);
      GoodPrefix(storages, n, db);
      MarkedAreGood(storages[..n], db, at);
      assert storages[n] in storages && GoodStorage(last, db);
      forall m | m in before ensures m.slot != last.slot { var s := MarkedFrom(storages[..n], db, at, m); }
      OneMoreIsGood(before, last, db);
    }
  }

  lemma OneMoreIsGood(storages: seq<Storage>, s: Storage, db: Contents)
    requires GoodStorages(storages, db) && GoodStorage(s, db) && forall t :: t in storages ==> t.slot != s.slot
    ensures GoodStorages(storages + [s], db)
  {
    forall i, j | 0 <= i < j < |storages + [s]| ensures (storages + [s])[i] != (storages + [s])[j] {
      assert storages[i] in storages;
    }
  }

  /** Marking at startup leaves good storages, with the marks the hash from storages relies on. */
  lemma MarkingMatches(storages: seq<Storage>, db: Contents, at: Slot, startupSlot: Slot)
    requires GoodStorages(storages, db) && (forall s :: s in storages ==> OffsetsDiffer(s) && s.marks == [])
    requires Complete(storages, db) && at <= startupSlot
    ensures GoodStorages(MarkAll(storages, db, at), db)
    ensures MarksMatch(MarkAll(storages, db, at), db, startupSlot, true)
  {
    MarkedAreGood(storages, db, at);
    var marked := MarkAll(storages, db, at);
    forall v: Version ensures v in AllScanned(marked, Some(startupSlot)) <==> v in Newest(db) {
      MarkedScan(storages, db, at, startupSlot, v);
      assert v in db ==> v.key in KeysOf(db);
    }
  }

  lemma DeadHasNoNewest(s: Storage, db: Contents, v: Version)
    requires DiesAtStartup(s, db) && v in Scanned(s, |s.entries|, None)
    ensures !IsNewest(db, v)
  {
    ScannedHolds(s, |s.entries|, None, v);
    var i :| 0 <= i < |s.entries| && s.entries[i].key == v.key && Taken(s, s.entries[i], None);
    assert v == Version(s.entries[i].key, s.slot);
  }

  lemma ScannedLast(storages: seq<Storage>, s: Storage, asOf: Option<Slot>)
    ensures AllScanned(storages + [s], asOf) == AllScanned(storages, asOf) + Scanned(s, |s.entries|, asOf)
  {
    assert (storages + [s])[..|storages|] == storages;
  }

  lemma {:induction false} MarkedScan(storages: seq<Storage>, db: Contents, at: Slot, startupSlot: Slot, v: Version)
    requires forall s :: s in storages ==> GoodStorage(s, db) && OffsetsDiffer(s) && s.marks == []
    requires at <= startupSlot
    ensures v in AllScanned(MarkAll(storages, db, at), Some(startupSlot)) <==>
            v in AllScanned(storages, None) && IsNewest(db, v)
  {
    if storages != [] {
      var n := |storages| - 1;
      MarkedScan(storages[..n], db, at, startupSlot, v);
      var before, marked := MarkAll(storages[..n], db, at), MarkAll(storages, db, at);
      if DiesAtStartup(storages[n], db) {
        assert marked == before;
        if v in Scanned(storages[n], |storages[n].entries|, None) { DeadHasNoNewest(storages[n], db, v); }
      } else {
        var last := MarkOlder(storages[n], db, at);
        assert marked == before + [last];
        MarkingLeavesNewest(storages[n], db, at, startupSlot);
        ScannedLast(before, last, Some(startupSlot));
      }
    }
  }
}
