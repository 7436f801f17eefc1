/** What scanning the account storages at startup adds up: lattice hashes and data lengths. */
module StartupScan {
  import opened Types
  import opened Sequences
  import opened LatticeHash

  /** One account in a storage file. */
  datatype Entry = Entry(offset: Offset, key: Pubkey, account: Account)

  datatype Storage = Storage(slot: Slot, entries: seq<Entry>, marks: seq<Obsolete>)

  /** The hash of a funded account. */
  type Hasher = (Pubkey, Account) -> LtHash

  /** What the database holds: the account stored under each key in each slot. */
  type Contents = map<Version, Account>

  function LtHashAccount(hasher: Hasher, key: Pubkey, account: Account): (h: LtHash) {
    if account.lamports == 0 then Identity() else hasher(key, account)
  }

  function FundedDataLen(account: Account): (n: nat) {
    if account.lamports > 0 then |account.data| else 0
  }

  ghost function Values(hasher: Hasher, db: Contents): (values: map<Version, Tally>)
    ensures values.Keys == db.Keys
  {
    map v | v in db :: Tally(LtHashAccount(hasher, v.key, db[v]), FundedDataLen(db[v]), 1)
  }

  // ----- Scanning one storage -----

  predicate Marked(s: Storage, e: Entry, asOf: Slot) {
    exists i :: 0 <= i < |s.marks| && s.marks[i].offset == e.offset && s.marks[i].dataLen == |e.account.data|
      && s.marks[i].slot <= asOf
  }

  /**
    Whether a scan takes an entry: the hash leaves out what was obsolete by then, the data length leaves out nothing.
  */
  predicate Taken(s: Storage, e: Entry, asOf: Option<Slot>) {
    asOf.None? || !Marked(s, e, asOf.value)
  }

  ghost function Scanned(s: Storage, n: nat, asOf: Option<Slot>): (versions: set<Version>)
    requires n <= |s.entries|
  {
    if n == 0 then {}
    else
      var e := s.entries[n - 1];
      Scanned(s, n - 1, asOf) + if Taken(s, e, asOf) then {Version(e.key, s.slot)} else {}
  }

  ghost predicate Holds(s: Storage, n: nat, asOf: Option<Slot>, v: Version)
    requires n <= |s.entries|
  {
    v.slot == s.slot && exists i :: 0 <= i < n && s.entries[i].key == v.key && Taken(s, s.entries[i], asOf)
  }

  lemma {:induction false} ScannedHolds(s: Storage, n: nat, asOf: Option<Slot>, v: Version)
    requires n <= |s.entries|
    ensures v in Scanned(s, n, asOf) <==> Holds(s, n, asOf, v)
  {
    if n > 0 { ScannedHolds(s, n - 1, asOf, v); }
  }

  /** One version per key, each of them what the database holds. */
  ghost predicate GoodStorage(s: Storage, db: Contents) {
    && (forall i :: 0 <= i < |s.entries| ==>
         var v := Version(s.entries[i].key, s.slot);
         v in db && db[v] == s.entries[i].account)
    && (forall i, j :: 0 <= i < j < |s.entries| ==> s.entries[i].key != s.entries[j].key)
  }

  lemma ScannedInContents(s: Storage, n: nat, asOf: Option<Slot>, db: Contents)
    requires GoodStorage(s, db) && n <= |s.entries|
    ensures Scanned(s, n, asOf) <= db.Keys
  {
    forall v | v in Scanned(s, n, asOf) ensures v in db { ScannedHolds(s, n, asOf, v); }
  }

  /** Taking one more entry adds what it is worth. */
  lemma ScanStep(hasher: Hasher, s: Storage, n: nat, asOf: Option<Slot>, db: Contents)
    requires GoodStorage(s, db) && n < |s.entries|
    ensures Scanned(s, n, asOf) <= db.Keys && Scanned(s, n + 1, asOf) <= db.Keys
    ensures var e := s.entries[n];
            var values := Values(hasher, db);
            Sum(values, Scanned(s, n + 1, asOf)) ==
            if Taken(s, e, asOf) then Plus(Sum(values, Scanned(s, n, asOf)), values[Version(e.key, s.slot)])
            else Sum(values, Scanned(s, n, asOf))
  {
    var v := Version(s.entries[n].key, s.slot);
    ScannedInContents(s, n, asOf, db);
    ScannedHolds(s, n, asOf, v);
    if Taken(s, s.entries[n], asOf) {
      assert Scanned(s, n + 1, asOf) == Scanned(s, n, asOf) + {v};
      SumPutIn(Values(hasher, db), Scanned(s, n, asOf), v);
    } else {
      assert Scanned(s, n + 1, asOf) == Scanned(s, n, asOf);
    }
  }

  /** Mix the live accounts of a storage into a thread's hash. */
  method HashStorage(hasher: Hasher, s: Storage, startupSlot: Slot, start: LtHash, ghost db: Contents)
    returns (h: LtHash)
    requires GoodStorage(s, db)
    ensures Scanned(s, |s.entries|, Some(startupSlot)) <= db.Keys
    ensures h == Add(start, Sum(Values(hasher, db), Scanned(s, |s.entries|, Some(startupSlot))).hash)
  {
    h := start;
    AddIdentity(start);
    ScannedInContents(s, 0, Some(startupSlot), db);
    for i := 0 to |s.entries|
      invariant Scanned(s, i, Some(startupSlot)) <= db.Keys
      invariant h == Add(start, Sum(Values(hasher, db), Scanned(s, i, Some(startupSlot))).hash)
    {
      var e := s.entries[i];
      ScanStep(hasher, s, i, Some(startupSlot), db);
      if !Marked(s, e, startupSlot) {
        var accountHash := LtHashAccount(hasher, e.key, e.account);
        AddAssociates(start, Sum(Values(hasher, db), Scanned(s, i, Some(startupSlot))).hash, accountHash);
        h := Add(h, accountHash);
      }
    }
  }

  /** The data of the funded accounts of a storage, as index generation counts it. */
  method DataLenOfStorage(ghost hasher: Hasher, s: Storage, ghost db: Contents) returns (n: nat)
    requires GoodStorage(s, db)
    ensures Scanned(s, |s.entries|, None) <= db.Keys
    ensures n == Sum(Values(hasher, db), Scanned(s, |s.entries|, None)).dataLen
  {
    n := 0;
    ScannedInContents(s, 0, None, db);
    for i := 0 to |s.entries|
      invariant Scanned(s, i, None) <= db.Keys
      invariant n == Sum(Values(hasher, db), Scanned(s, i, None)).dataLen
    {
      ScanStep(hasher, s, i, None, db);
      if s.entries[i].account.lamports > 0 {
        n := n + |s.entries[i].account.data|;
      }
    }
  }

  // ----- Scanning many storages -----

  ghost function AllScanned(storages: seq<Storage>, asOf: Option<Slot>): (versions: set<Version>) {
    if storages == [] then {}
    else
      var last := storages[|storages| - 1];
      AllScanned(storages[..|storages| - 1], asOf) + Scanned(last, |last.entries|, asOf)
  }

  lemma {:induction false} AllScannedHolds(storages: seq<Storage>, asOf: Option<Slot>, v: Version)
    ensures v in AllScanned(storages, asOf) <==> exists s :: s in storages && Holds(s, |s.entries|, asOf, v)
  {
    if storages != [] {
      var n := |storages| - 1;
      AllScannedHolds(storages[..n], asOf, v);
      ScannedHolds(storages[n], |storages[n].entries|, asOf, v);
      assert forall s :: s in storages <==> s in storages[..n] || s == storages[n];
    }
  }

  lemma ScannedOfPermutation(storages: seq<Storage>, others: seq<Storage>, asOf: Option<Slot>)
    requires multiset(storages) == multiset(others)
    ensures AllScanned(storages, asOf) == AllScanned(others, asOf)
  {
    SameElements(storages, others);
    forall v: Version ensures v in AllScanned(storages, asOf) <==> v in AllScanned(others, asOf) {
      AllScannedHolds(storages, asOf, v);
      AllScannedHolds(others, asOf, v);
    }
  }

  lemma {:induction false} ScannedOfConcat(storages: seq<Storage>, others: seq<Storage>, asOf: Option<Slot>)
    ensures AllScanned(storages + others, asOf) == AllScanned(storages, asOf) + AllScanned(others, asOf)
  {
    if others == [] {
      assert storages + others == storages;
    } else {
      var n := |others| - 1;
      ScannedOfConcat(storages, others[..n], asOf);
      assert (storages + others)[..|storages| + n] == storages + others[..n];
    }
  }

  /** One storage per slot, one version per key in each. */
  ghost predicate GoodStorages(storages: seq<Storage>, db: Contents) {
    && Distinct(storages)
    && (forall s :: s in storages ==> GoodStorage(s, db))
    && (forall s, t :: s in storages && t in storages && s.slot == t.slot ==> s == t)
  }

  lemma GoodPermutation(storages: seq<Storage>, others: seq<Storage>, db: Contents)
    requires GoodStorages(storages, db) && multiset(storages) == multiset(others)
    ensures GoodStorages(others, db)
  {
    SameElements(storages, others);
    PermutationIsDistinct(storages, others);
  }

  lemma {:induction false} AllScannedInContents(storages: seq<Storage>, asOf: Option<Slot>, db: Contents)
    requires forall s :: s in storages ==> GoodStorage(s, db)
    ensures AllScanned(storages, asOf) <= db.Keys
  {
    if storages != [] {
      var n := |storages| - 1;
      AllScannedInContents(storages[..n], asOf, db);
      ScannedInContents(storages[n], |storages[n].entries|, asOf, db);
    }
  }

  /** Storages before and after a cut hold different versions. */
  lemma CutIsDisjoint(storages: seq<Storage>, k: nat, asOf: Option<Slot>, db: Contents)
    requires GoodStorages(storages, db) && k <= |storages|
    ensures AllScanned(storages[..k], asOf) !! AllScanned(storages[k..], asOf)
  {
    forall v: Version | v in AllScanned(storages[..k], asOf) ensures v !in AllScanned(storages[k..], asOf) {
      AllScannedHolds(storages[..k], asOf, v);
      AllScannedHolds(storages[k..], asOf, v);
      var s :| s in storages[..k] && Holds(s, |s.entries|, asOf, v);
      forall t | t in storages[k..] ensures t.slot != s.slot {
        var i :| 0 <= i < k && storages[i] == s;
        var j :| k <= j < |storages| && storages[j] == t;
        assert s in storages && t in storages && s != t;
      }
    }
  }

  /** What a run of storages adds to the sum of those before it. */
  lemma SumOfCut(hasher: Hasher, storages: seq<Storage>, k: nat, asOf: Option<Slot>, db: Contents)
    requires GoodStorages(storages, db) && k <= |storages|
    ensures AllScanned(storages[..k], asOf) <= db.Keys && AllScanned(storages[k..], asOf) <= db.Keys
    ensures AllScanned(storages, asOf) <= db.Keys
    ensures Sum(Values(hasher, db), AllScanned(storages, asOf)) ==
            Plus(Sum(Values(hasher, db), AllScanned(storages[..k], asOf)),
                 Sum(Values(hasher, db), AllScanned(storages[k..], asOf)))
  {
    AllScannedInContents(storages[..k], asOf, db);
    AllScannedInContents(storages[k..], asOf, db);
    CutIsDisjoint(storages, k, asOf, db);
    assert storages == storages[..k] + storages[k..];
    ScannedOfConcat(storages[..k], storages[k..], asOf);
    SumUnion(Values(hasher, db), AllScanned(storages[..k], asOf), AllScanned(storages[k..], asOf));
  }

  lemma GoodSlice(storages: seq<Storage>, db: Contents, lo: nat, hi: nat)
    requires GoodStorages(storages, db) && lo <= hi <= |storages|
    ensures GoodStorages(storages[lo..hi], db)
  {
    var part := storages[lo..hi];
    forall s | s in part ensures s in storages {
      var i :| 0 <= i < |part| && part[i] == s;
      assert storages[lo + i] == s;
    }
    forall i, j | 0 <= i < j < |part| ensures part[i] != part[j] {
      assert part[i] == storages[lo + i] && part[j] == storages[lo + j];
    }
  }

  lemma SumOfNext(hasher: Hasher, before: seq<Storage>, next: seq<Storage>, asOf: Option<Slot>, db: Contents)
    requires GoodStorages(before + next, db)
    ensures GoodStorages(next, db)
    ensures AllScanned(next, asOf) <= db.Keys && AllScanned(before, asOf) <= db.Keys
    ensures AllScanned(before + next, asOf) <= db.Keys
    ensures Sum(Values(hasher, db), AllScanned(before + next, asOf)) ==
            Plus(Sum(Values(hasher, db), AllScanned(before, asOf)), Sum(Values(hasher, db), AllScanned(next, asOf)))
  {
    var all, n := before + next, |before|;
    assert all[..n] == before && all[n..] == next && all[n..|all|] == next;
    GoodSlice(all, db, n, |all|);
    SumOfCut(hasher, all, n, asOf, db);
  }

  lemma AddOneStorage(hasher: Hasher, part: seq<Storage>, k: nat, asOf: Option<Slot>, db: Contents)
    requires GoodStorages(part, db) && k < |part|
    ensures AllScanned(part[..k], asOf) <= db.Keys && AllScanned(part[..k + 1], asOf) <= db.Keys
    ensures Scanned(part[k], |part[k].entries|, asOf) <= db.Keys
    ensures Sum(Values(hasher, db), AllScanned(part[..k + 1], asOf)) ==
            Plus(Sum(Values(hasher, db), AllScanned(part[..k], asOf)),
                 Sum(Values(hasher, db), Scanned(part[k], |part[k].entries|, asOf)))
  {
    GoodSlice(part, db, 0, k + 1);
    PrefixNext(part, k);
    SumOfNext(hasher, part[..k], [part[k]], asOf, db);
    assert AllScanned([part[k]], asOf) == Scanned(part[k], |part[k].entries|, asOf);
  }

  /** What one thread adds up over the storages it was given. */
  method HashThread(hasher: Hasher, part: seq<Storage>, startupSlot: Slot, ghost db: Contents) returns (h: LtHash)
    requires GoodStorages(part, db)
    ensures AllScanned(part, Some(startupSlot)) <= db.Keys
    ensures h == Sum(Values(hasher, db), AllScanned(part, Some(startupSlot))).hash
  {
    h := Identity();
    ghost var asOf := Some(startupSlot);
    for k := 0 to |part|
      invariant AllScanned(part[..k], asOf) <= db.Keys
      invariant h == Sum(Values(hasher, db), AllScanned(part[..k], asOf)).hash
    {
      AddOneStorage(hasher, part, k, asOf, db);
      h := HashStorage(hasher, part[k], startupSlot, h, db);
    }
    assert part[..|part|] == part;
  }

  method DataLenOfChunk(ghost hasher: Hasher, part: seq<Storage>, ghost db: Contents) returns (n: nat)
    requires GoodStorages(part, db)
    ensures AllScanned(part, None) <= db.Keys
    ensures n == Sum(Values(hasher, db), AllScanned(part, None)).dataLen
  {
    n := 0;
    ghost var sum := Nothing();
    for k := 0 to |part|
      invariant AllScanned(part[..k], None) <= db.Keys
      invariant sum == Sum(Values(hasher, db), AllScanned(part[..k], None)) && n == sum.dataLen
    {
      AddOneStorage(hasher, part, k, None, db);
      var m := DataLenOfStorage(hasher, part[k], db);
      sum := Sum(Values(hasher, db), AllScanned(part[..k + 1], None));
      n := n + m;
    }
    assert part[..|part|] == part;
  }

  // ----- Dealing the storages to threads -----

  /** The threads together received every storage once. */
  ghost predicate Dealt(parts: seq<seq<Storage>>, storages: seq<Storage>) {
    multiset(Flatten(parts)) == multiset(storages)
  }

  /** Joining in the next thread's result. */
  lemma JoinThread(hasher: Hasher, parts: seq<seq<Storage>>, t: nat, asOf: Option<Slot>, db: Contents)
    requires GoodStorages(Flatten(parts), db) && t < |parts|
    ensures GoodStorages(parts[t], db)
    ensures AllScanned(parts[t], asOf) <= db.Keys
    ensures AllScanned(Flatten(parts[..t]), asOf) <= db.Keys && AllScanned(Flatten(parts[..t + 1]), asOf) <= db.Keys
    ensures Sum(Values(hasher, db), AllScanned(Flatten(parts[..t + 1]), asOf)) ==
            Plus(Sum(Values(hasher, db), AllScanned(Flatten(parts[..t]), asOf)),
                 Sum(Values(hasher, db), AllScanned(parts[t], asOf)))
  {
    FlattenNext(parts, t);
    var upTo := Flatten(parts[..t + 1]);
    GoodSlice(Flatten(parts), db, 0, |upTo|);
    assert Flatten(parts)[0..|upTo|] == upTo;
    SumOfNext(hasher, Flatten(parts[..t]), parts[t], asOf, db);
  }

  /** Some storage has the version, and by the given slot nobody had marked it obsolete. */
  ghost predicate StillCounts(storages: seq<Storage>, asOf: Slot, v: Version) {
    exists s, i :: s in storages && 0 <= i < |s.entries| && v == Version(s.entries[i].key, s.slot)
                   && !MarkedBy(s.marks, s.entries[i], asOf)
  }

  ghost predicate MarkedBy(marks: seq<Obsolete>, e: Entry, asOf: Slot) {
    exists m :: m in marks && m.offset == e.offset && m.dataLen == |e.account.data| && m.slot <= asOf
  }

  lemma MarkedMeaning(s: Storage, e: Entry, asOf: Slot)
    ensures Marked(s, e, asOf) <==> MarkedBy(s.marks, e, asOf)
  {
    if MarkedBy(s.marks, e, asOf) {
      var m :| m in s.marks && m.offset == e.offset && m.dataLen == |e.account.data| && m.slot <= asOf;
      var i :| 0 <= i < |s.marks| && s.marks[i] == m;
    }
  }

  lemma HoldsMeaning(s: Storage, asOf: Slot, v: Version)
    ensures Holds(s, |s.entries|, Some(asOf), v) <==>
            exists i :: 0 <= i < |s.entries| && v == Version(s.entries[i].key, s.slot)
                        && !MarkedBy(s.marks, s.entries[i], asOf)
  {
    forall i | 0 <= i < |s.entries|
      ensures Taken(s, s.entries[i], Some(asOf)) <==> !MarkedBy(s.marks, s.entries[i], asOf)
    {
      MarkedMeaning(s, s.entries[i], asOf);
    }
  }

  /** The versions a scan takes are those not marked obsolete by then. */
  lemma ScannedStillCounts(storages: seq<Storage>, asOf: Slot, v: Version)
    ensures v in AllScanned(storages, Some(asOf)) <==> StillCounts(storages, asOf, v)
  {
    AllScannedHolds(storages, Some(asOf), v);
    forall s | s in storages
      ensures Holds(s, |s.entries|, Some(asOf), v) <==>
              exists i :: 0 <= i < |s.entries| && v == Version(s.entries[i].key, s.slot)
                          && !MarkedBy(s.marks, s.entries[i], asOf)
    {
      HoldsMeaning(s, asOf, v);
    }
  }

  /** The hash of all storages less the duplicates, whichever thread scanned which storage. */
  method HashFromStorages(hasher: Hasher, parts: seq<seq<Storage>>, duplicates: LtHash, startupSlot: Slot,
                          ghost storages: seq<Storage>, ghost db: Contents)
    returns (h: LtHash)
    requires GoodStorages(storages, db) && Dealt(parts, storages)
    ensures AllScanned(storages, Some(startupSlot)) <= db.Keys
    ensures forall v :: v in AllScanned(storages, Some(startupSlot)) <==> StillCounts(storages, startupSlot, v)
    ensures h == Sub(Sum(Values(hasher, db), AllScanned(storages, Some(startupSlot))).hash, duplicates)
  {
    h := Identity();
    ghost var asOf := Some(startupSlot);
    GoodPermutation(storages, Flatten(parts), db);
    for t := 0 to |parts|
      invariant AllScanned(Flatten(parts[..t]), asOf) <= db.Keys
      invariant h == Sum(Values(hasher, db), AllScanned(Flatten(parts[..t]), asOf)).hash
    {
      JoinThread(hasher, parts, t, asOf, db);
      var threadHash := HashThread(hasher, parts[t], startupSlot, db);
      h := Add(h, threadHash);
    }
    assert parts[..|parts|] == parts;
    ScannedOfPermutation(storages, Flatten(parts), asOf);
    forall v ensures v in AllScanned(storages, asOf) <==> StillCounts(storages, startupSlot, v) {
      ScannedStillCounts(storages, startupSlot, v);
    }
    h := Sub(h, duplicates);
  }

  /** The data length index generation arrives at before duplicates are taken off. */
  method DataLenFromStorages(ghost hasher: Hasher, parts: seq<seq<Storage>>, ghost storages: seq<Storage>,
                             ghost db: Contents)
    returns (n: nat)
    requires GoodStorages(storages, db) && Dealt(parts, storages)
    ensures AllScanned(storages, None) <= db.Keys
    ensures n == Sum(Values(hasher, db), AllScanned(storages, None)).dataLen
  {
    n := 0;
    GoodPermutation(storages, Flatten(parts), db);
    for t := 0 to |parts|
      invariant AllScanned(Flatten(parts[..t]), None) <= db.Keys
      invariant n == Sum(Values(hasher, db), AllScanned(Flatten(parts[..t]), None)).dataLen
    {
      JoinThread(hasher, parts, t, None, db);
      var m := DataLenOfChunk(hasher, parts[t], db);
      n := n + m;
    }
    assert parts[..|parts|] == parts;
    ScannedOfPermutation(storages, Flatten(parts), None);
  }
}
