/** Writing accounts to the storage of a slot: when it completes, and what a storage goes through in its life. */
module StorageWrites {
  import opened Types
  import opened Sequences
  import opened StorageReader
  import opened StorageEntries

  /** The assertions and unwraps on the way that can fail. */
  datatype Panic = NoStorage | ShrinkInProgress | SlotTaken

  datatype Outcome<T> = Completed(value: T) | Panicked(panic: Panic)

  // ----- When a file can hold the accounts -----

  lemma LongerFile(stored: seq<nat>, more: seq<nat>)
    ensures FileLen(stored) <= FileLen(stored + more)
  {
    if more == [] {
      assert stored + more == stored;
    } else {
      var n := |more| - 1;
      assert (stored + more)[..|stored| + n] == stored + more[..n];
      TotalOfConcat(stored, more[..n]);
    }
  }

  /** A file that refuses one of the accounts cannot hold all of them. */
  lemma RefusedOne(stored: seq<nat>, dataLens: seq<nat>, n: nat, fileSize: nat)
    requires n < |dataLens| && Align(FileLen(stored + dataLens[..n])) + STORE_META_OVERHEAD + dataLens[n] > fileSize
    ensures FileLen(stored + dataLens) > fileSize
  {
    var first := stored + dataLens[..n + 1];
    AlignedFile(stored + dataLens[..n]);
    assert first[..|first| - 1] == stored + dataLens[..n];
    assert first + dataLens[n + 1..] == stored + dataLens;
    LongerFile(first, dataLens[n + 1..]);
  }

  /** Writing resets the file: none in it is live and the first account does not fit. */
  ghost predicate Resets(stored: seq<nat>, live: set<Offset>, dataLens: seq<nat>, fileSize: nat) {
    dataLens != [] && live == {} && Align(FileLen(stored)) + STORE_META_OVERHEAD + dataLens[0] > fileSize
  }

  /** What the accounts are written after. */
  ghost function Base(stored: seq<nat>, live: set<Offset>, dataLens: seq<nat>, fileSize: nat): (base: seq<nat>) {
    if Resets(stored, live, dataLens, fileSize) then [] else stored
  }

  ghost predicate HoldsAll(stored: seq<nat>, live: set<Offset>, dataLens: seq<nat>, fileSize: nat) {
    dataLens == [] || FileLen(Base(stored, live, dataLens, fileSize) + dataLens) <= fileSize
  }

  /**
    A write completes: the file can hold all accounts, and no shrink is in progress where a reset is needed for that.
  */
  ghost predicate Completes(before: EntryState, dataLens: seq<nat>, fileSize: nat, shrinking: bool) {
    && HoldsAll(before.stored, before.live, dataLens, fileSize)
    && (shrinking ==> !Resets(before.stored, before.live, dataLens, fileSize))
  }

  /** Room for the stored sizes is enough, and nothing is given up for it. */
  lemma RoomForAll(stored: seq<nat>, live: set<Offset>, dataLens: seq<nat>, fileSize: nat)
    requires TotalSize(stored) + TotalSize(dataLens) <= fileSize
    ensures !Resets(stored, live, dataLens, fileSize) && HoldsAll(stored, live, dataLens, fileSize)
  {
    AlignedFile(stored);
    AlignedFile(stored + dataLens);
    TotalOfConcat(stored, dataLens);
    if dataLens != [] {
      assert dataLens == dataLens[..1] + dataLens[1..] && dataLens[..1][..0] == [];
      TotalOfConcat(dataLens[..1], dataLens[1..]);
    }
  }

  /** Every account of a file written from its start is one of those written. */
  lemma {:induction false} OnlyTheseWritten(dataLens: seq<nat>, n: nat, offsets: seq<Offset>, o: Offset)
    requires PlacedAt([], dataLens, offsets) && n <= |dataLens| && IsOffset(dataLens[..n], o)
    ensures o in Members(offsets)
  {
    assert dataLens[..n][..n - 1] == dataLens[..n - 1];
    if TotalSize(dataLens[..n - 1]) == o {
      assert [] + dataLens[..n - 1] == dataLens[..n - 1];
      assert offsets[n - 1] == PlaceOf([], dataLens, n - 1) == o;
    } else {
      OnlyTheseWritten(dataLens, n - 1, offsets, o);
    }
  }

  /** No mark left from before fits a file written anew: all its accounts are live. */
  lemma OldMarksAreStale(dataLens: seq<nat>, stored: seq<nat>, live: set<Offset>, offsets: seq<Offset>,
                         marks: seq<Obsolete>)
    requires AllStored([], {}, dataLens, stored, live, offsets)
    ensures MarksOk(stored, marks, live) <==> marks == []
  {
    assert stored == dataLens && dataLens[..|dataLens|] == dataLens;
    if marks != [] && IsOffset(stored, marks[0].offset) {
      OnlyTheseWritten(dataLens, |dataLens|, offsets, marks[0].offset);
    }
  }

  /**
    A completed write: all accounts are stored and live; marks agree with the file exactly unless it was reset under
    them.
  */
  ghost predicate Wrote(before: EntryState, after: EntryState, dataLens: seq<nat>, offsets: seq<Offset>,
                        fileSize: nat) {
    && HoldsAll(before.stored, before.live, dataLens, fileSize)
    && AllStored(Base(before.stored, before.live, dataLens, fileSize), before.live, dataLens, after.stored, after.live,
                 offsets)
    && after.marks == before.marks && after.status == (if dataLens == [] then before.status else Available)
    && (MarksAgree(before) ==> (MarksAgree(after) <==> !ResetsMarks(before, dataLens, fileSize)))
  }

  ghost predicate ResetsMarks(before: EntryState, dataLens: seq<nat>, fileSize: nat) {
    Resets(before.stored, before.live, dataLens, fileSize) && before.marks != []
  }

  /** The file has no room for one more account. */
  predicate Refuses(stored: seq<nat>, dataLen: nat, fileSize: nat) {
    Align(FileLen(stored)) + STORE_META_OVERHEAD + dataLen > fileSize
  }

  /** Some of the accounts have been written, after a reset or without one. */
  ghost predicate Midway(before: EntryState, now: EntryState, dataLens: seq<nat>, offsets: seq<Offset>, fileSize: nat,
                         reset: bool) {
    && |offsets| <= |dataLens|
    && AllStored(if reset then [] else before.stored, before.live, dataLens[..|offsets|], now.stored, now.live, offsets)
    && now.marks == before.marks && (!reset && MarksAgree(before) ==> MarksAgree(now))
    && (reset ==> Resets(before.stored, before.live, dataLens, fileSize))
    && (if offsets == [] then dataLens == [] ==> now.status == before.status
        else Settled(before, now, dataLens, |offsets|, fileSize, reset))
  }

  /** Once an attempt has stored accounts, the next account, if any, is refused. */
  ghost predicate Settled(before: EntryState, now: EntryState, dataLens: seq<nat>, n: nat, fileSize: nat, reset: bool)
    requires n <= |dataLens|
  {
    && now.status == Available && FileLen(now.stored) <= fileSize
    && (reset <==> Resets(before.stored, before.live, dataLens, fileSize))
    && (n < |dataLens| ==> Refuses(now.stored, dataLens[n], fileSize))
  }

  /** A write that failed an assertion had stored the accounts before the one without room. */
  ghost predicate FailedAt(before: EntryState, after: EntryState, dataLens: seq<nat>, offsets: seq<Offset>,
                           fileSize: nat, shrinking: bool) {
    && |offsets| < |dataLens| && after.marks == before.marks
    && AllStored(Base(before.stored, before.live, dataLens, fileSize), before.live, dataLens[..|offsets|],
                 after.stored, after.live, offsets)
    && (!shrinking ==> Refuses(after.stored, dataLens[|offsets|], fileSize))
  }

  /** What one attempt does to a storage, as its contract says. */
  ghost predicate Attempted(was: EntryState, now: EntryState, rest: seq<nat>, more: seq<Offset>, fileSize: nat) {
    && rest != [] && |more| <= |rest| && now.marks == was.marks
    && AllStored(if more == [] && was.live == {} then [] else was.stored, was.live, rest[..|more|],
                 now.stored, now.live, more)
    && now.status == (if more == [] && now.live != {} then Full else Available)
    && (more == [] <==> Refuses(was.stored, rest[0], fileSize))
    && (more != [] ==> FileLen(now.stored) <= fileSize)
    && (0 < |more| < |rest| ==> Refuses(now.stored, rest[|more|], fileSize))
    && (MarksAgree(was) && (more != [] || was.live != {}) ==> MarksAgree(now))
  }

  /** With at most one attempt that stores, places in the attempt are places in the batch. */
  lemma FlagsOfOne(offsets: seq<Offset>, more: seq<Offset>, flags: seq<bool>, zeroLamport: seq<bool>)
    requires |offsets| <= |zeroLamport| && |more| <= |zeroLamport| && flags == zeroLamport[..|offsets|]
    requires offsets == [] || more == []
    ensures offsets + more == (if more == [] then offsets else more) && |offsets + more| <= |zeroLamport|
    ensures flags + zeroLamport[..|more|] == zeroLamport[..|offsets + more|]
  {
  }

  /** The panic that follows a refusal, or none if the reset has made room. */
  function Verdict(now: EntryState, dataLen: nat, fileSize: nat, shrinking: bool): (panic: Option<Panic>) {
    if shrinking then Some(ShrinkInProgress)
    else if now.status == Available && !Refuses(now.stored, dataLen, fileSize) then None
    else Some(SlotTaken)
  }

  lemma NothingYet(stored: seq<nat>, live: set<Offset>, dataLens: seq<nat>, stored': seq<nat>, live': set<Offset>)
    requires AllStored(stored, live, dataLens[..0], stored', live', [])
    ensures stored' == stored && live' == live
  {
  }

  /** Only one attempt stores accounts. */
  lemma AttemptStores(before: EntryState, was: EntryState, now: EntryState, dataLens: seq<nat>, offsets: seq<Offset>,
                      more: seq<Offset>, fileSize: nat, reset: bool)
    requires Midway(before, was, dataLens, offsets, fileSize, reset) && |offsets| < |dataLens|
    requires Attempted(was, now, dataLens[|offsets|..], more, fileSize) && more != []
    ensures offsets == [] && Midway(before, now, dataLens, more, fileSize, reset)
  {
    assert dataLens[|offsets|..][0] == dataLens[|offsets|];
    assert offsets == [];
    FirstAttempt(before, was, now, dataLens, more, fileSize, reset);
  }

  lemma FirstAttempt(before: EntryState, was: EntryState, now: EntryState, dataLens: seq<nat>, more: seq<Offset>,
                     fileSize: nat, reset: bool)
    requires dataLens != [] && Midway(before, was, dataLens, [], fileSize, reset)
    requires Attempted(was, now, dataLens[0..], more, fileSize) && more != []
    ensures Midway(before, now, dataLens, more, fileSize, reset)
  {
    NothingYet(if reset then [] else before.stored, before.live, dataLens, was.stored, was.live);
    assert dataLens[0..] == dataLens;
  }

  /** A refused attempt leaves the live accounts, and the file unless there are none. */
  lemma RefusedKeeps(was: EntryState, now: EntryState, rest: seq<nat>, fileSize: nat)
    requires Attempted(was, now, rest, [], fileSize)
    ensures now.live == was.live && now.stored == (if was.live == {} then [] else was.stored)
  {
    NothingYet(if was.live == {} then [] else was.stored, was.live, rest, now.stored, now.live);
  }

  /** With nothing live nothing was stored yet, and the file is reset. */
  lemma EmptyIsReset(before: EntryState, was: EntryState, dataLens: seq<nat>, offsets: seq<Offset>, fileSize: nat,
                     reset: bool)
    requires Midway(before, was, dataLens, offsets, fileSize, reset) && |offsets| < |dataLens|
    requires was.live == {} && Refuses(was.stored, dataLens[|offsets|], fileSize)
    ensures offsets == [] && before.live == {} && Resets(before.stored, before.live, dataLens, fileSize)
  {
    assert forall i :: 0 <= i < |offsets| ==> offsets[i] in Members(offsets);
    NothingYet(if reset then [] else before.stored, before.live, dataLens, was.stored, was.live);
  }

  /** A refusal with nothing stored yet resets a file without live accounts. */
  lemma AttemptResets(before: EntryState, was: EntryState, now: EntryState, dataLens: seq<nat>, offsets: seq<Offset>,
                      fileSize: nat, reset: bool)
    requires Midway(before, was, dataLens, offsets, fileSize, reset) && |offsets| < |dataLens|
    requires Attempted(was, now, dataLens[|offsets|..], [], fileSize) && now.status == Available
    ensures offsets == [] && now.stored == [] && Midway(before, now, dataLens, [], fileSize, true)
  {
    RefusedKeeps(was, now, dataLens[|offsets|..], fileSize);
    EmptyIsReset(before, was, dataLens, offsets, fileSize, reset);
    NoneStored([], {});
    assert dataLens[..0] == [];
  }

  /** Without a second chance the write fails there, and not all accounts could have been written. */
  lemma AttemptFails(before: EntryState, was: EntryState, now: EntryState, dataLens: seq<nat>, offsets: seq<Offset>,
                     fileSize: nat, reset: bool, shrinking: bool)
    requires Midway(before, was, dataLens, offsets, fileSize, reset) && |offsets| < |dataLens| && !(reset && shrinking)
    requires Attempted(was, now, dataLens[|offsets|..], [], fileSize)
    requires shrinking || now.status != Available || Refuses(now.stored, dataLens[|offsets|], fileSize)
    ensures FailedAt(before, now, dataLens, offsets, fileSize, shrinking)
    ensures !Completes(before, dataLens, fileSize, shrinking)
  {
    var n := |offsets|;
    RefusedKeeps(was, now, dataLens[n..], fileSize);
    if was.live == {} {
      EmptyIsReset(before, was, dataLens, offsets, fileSize, reset);
      NoneStored([], {});
      assert dataLens[..0] == [] && [] + dataLens[..0] == [];
      if !shrinking { RefusedOne([], dataLens, 0, fileSize); }
    } else {
      if offsets == [] { NothingYet(if reset then [] else before.stored, before.live, dataLens, was.stored, was.live); }
      RefusedOne(Base(before.stored, before.live, dataLens, fileSize), dataLens, n, fileSize);
    }
  }

  /** With all accounts written the write is complete. */
  lemma AllWritten(before: EntryState, now: EntryState, dataLens: seq<nat>, offsets: seq<Offset>, fileSize: nat,
                   reset: bool)
    requires Midway(before, now, dataLens, offsets, fileSize, reset) && |offsets| == |dataLens|
    ensures Wrote(before, now, dataLens, offsets, fileSize)
    ensures Resets(before.stored, before.live, dataLens, fileSize) ==> reset
  {
    assert dataLens[..|dataLens|] == dataLens;
    if reset { OldMarksAreStale(dataLens, now.stored, now.live, offsets, now.marks); }
  }

  // ----- The storages of the database -----

  class AccountStorage {
    var entries: map<Slot, StorageEntry>
    var shrinking: map<Slot, StorageEntry>

    constructor ()
      ensures entries == map[] && shrinking == map[]
    {
      entries, shrinking := map[], map[];
    }

    method GetSlotStorageEntry(slot: Slot) returns (r: Outcome<StorageEntry>)
      ensures r == if shrinking != map[] then Panicked(ShrinkInProgress)
                   else if slot in entries then Completed(entries[slot]) else Panicked(NoStorage)
    {
      if shrinking != map[] {
        return Panicked(ShrinkInProgress);
      }
      return if slot in entries then Completed(entries[slot]) else Panicked(NoStorage);
    }

    /** The new storage is in the map before the assertion that the slot had none. */
    method Insert(slot: Slot, store: StorageEntry) returns (panic: Option<Panic>)
      modifies this`entries
      ensures if shrinking != map[] then panic == Some(ShrinkInProgress) && entries == old(entries)
              else entries == old(entries)[slot := store]
                   && panic == if slot in old(entries) then Some(SlotTaken) else None
    {
      if shrinking != map[] {
        return Some(ShrinkInProgress);
      }
      panic := if slot in entries then Some(SlotTaken) else None;
      entries := entries[slot := store];
    }

    method HasSpaceAvailable(slot: Slot, size: nat) returns (r: Outcome<bool>)
      ensures r == if shrinking != map[] then Panicked(ShrinkInProgress)
                   else if slot !in entries then Panicked(NoStorage)
                   else Completed(entries[slot].status == Available && entries[slot].RemainingBytes() >= size)
    {
      var store := GetSlotStorageEntry(slot);
      if store.Panicked? {
        return Panicked(store.panic);
      }
      return Completed(store.value.status == Available && store.value.RemainingBytes() >= size);
    }

    /**
     * One attempt. A refusal by a storage that still has no room puts a larger one in its place, which fails: the slot
     * has a storage.
     */
    method Attempt(slot: Slot, storage: StorageEntry, rest: seq<nat>, defaultSize: nat)
      returns (more: seq<Offset>, panic: Option<Panic>)
      requires storage.Valid() && rest != []
      requires shrinking == map[] ==> slot in entries && entries[slot] == storage
      modifies this`entries, storage
      ensures storage.Valid() && Attempted(old(storage.State()), storage.State(), rest, more, storage.fileSize)
      ensures panic == if more != [] then None
                       else Verdict(storage.State(), rest[0], storage.fileSize, shrinking != map[])
      ensures panic.None? ==> entries == old(entries) && (more == [] ==> storage.len < old(storage.len))
      ensures panic == Some(SlotTaken) ==>
                && slot in entries && entries == old(entries)[slot := entries[slot]] && entries[slot] != storage
                && entries[slot].fileSize >= 2 * (136 + rest[0]) && entries[slot].fileSize >= defaultSize
                && (entries[slot].fileSize == 2 * (136 + rest[0]) || entries[slot].fileSize == defaultSize)
    {
      more := storage.Store(rest);
      assert more == [] ==> rest[..|more|] == [];
      if more != [] {
        return more, None;
      }
      var size := rest[0] + STORE_META_OVERHEAD;
      var space := HasSpaceAvailable(slot, size);
      if space.Panicked? {
        return more, Some(space.panic);
      }
      if space.value {
        return more, None;
      }
      var larger := new StorageEntry(slot, if 2 * size > defaultSize then 2 * size else defaultSize);
      panic := Insert(slot, larger);
    }

    /**
     * Write accounts to the storage of a slot, or to the new storage of a slot being shrunk. The write completes
     * exactly when `Completes` says so; otherwise it fails an assertion at the first account it cannot place. The
     * flag of an account is looked up by its place in the attempt that stores it, which is its place in the batch:
     * no two attempts store accounts.
     */
    method WriteAccounts(slot: Slot, storage: StorageEntry, dataLens: seq<nat>, zeroLamport: seq<bool>,
                         defaultSize: nat)
      returns (offsets: seq<Offset>, flags: seq<bool>, panic: Option<Panic>)
      requires storage.Valid() && |zeroLamport| == |dataLens|
      requires shrinking == map[] ==> slot in entries && entries[slot] == storage
      modifies this`entries, storage
      ensures storage.Valid() && |offsets| <= |dataLens| && flags == zeroLamport[..|offsets|]
      ensures panic.None? <==> Completes(old(storage.State()), dataLens, storage.fileSize, shrinking != map[])
      ensures panic.None? ==> Wrote(old(storage.State()), storage.State(), dataLens, offsets, storage.fileSize)
      ensures panic.None? ==> entries == old(entries)
      ensures panic.Some? ==>
              |offsets| < |dataLens| && panic.value == if shrinking != map[] then ShrinkInProgress else SlotTaken
      ensures panic.Some? ==>
                FailedAt(old(storage.State()), storage.State(), dataLens, offsets, storage.fileSize, shrinking != map[])
    {
      offsets, flags := [], [];
      ghost var before, reset := storage.State(), false;
      NoneStored(storage.stored, storage.live);
      while |offsets| < |dataLens|
        invariant storage.Valid() && |offsets| <= |dataLens| && flags == zeroLamport[..|offsets|]
        invariant entries == old(entries)
        invariant Midway(before, storage.State(), dataLens, offsets, storage.fileSize, reset)
        invariant reset ==> shrinking == map[]
        decreases |dataLens| - |offsets|, storage.len
      {
        var n := |offsets|;
        ghost var was := storage.State();
        var more;
        more, panic := Attempt(slot, storage, dataLens[n..], defaultSize);
        ghost var now := storage.State();
        if panic.Some? {
          AttemptFails(before, was, now, dataLens, offsets, storage.fileSize, reset, shrinking != map[]);
          return;
        }
        if more == [] {
          AttemptResets(before, was, now, dataLens, offsets, storage.fileSize, reset);
          reset := true;
        } else {
          AttemptStores(before, was, now, dataLens, offsets, more, storage.fileSize, reset);
        }
        FlagsOfOne(offsets, more, flags, zeroLamport);
        offsets, flags := offsets + more, flags + zeroLamport[..|more|];
      }
      AllWritten(before, storage.State(), dataLens, offsets, storage.fileSize, reset);
      panic := None;
    }
  }

  // ----- The life of a storage -----

  datatype Event = Write(dataLens: seq<nat>, offsets: seq<Offset>) | Reclaim(gone: set<Offset>, marking: Option<Slot>)

  ghost predicate Happens(before: EntryState, event: Event, after: EntryState, fileSize: nat) {
    match event
    case Write(dataLens, offsets) => Wrote(before, after, dataLens, offsets, fileSize)
    case Reclaim(gone, marking) => gone <= before.live && TakenOff(before, after, gone, marking)
  }

  /** Completed writes and reclaims, in any order, from a new storage on. */
  ghost predicate IsLife(states: seq<EntryState>, events: seq<Event>, fileSize: nat) {
    && |states| == |events| + 1 && states[0] == EntryState([], {}, [], Available)
    && (forall i :: 0 <= i < |events| ==> Happens(states[i], events[i], states[i + 1], fileSize))
  }

  /** No storage is ever found full, so none is reset by a reclaim. */
  lemma {:induction false} NeverFull(states: seq<EntryState>, events: seq<Event>, fileSize: nat, i: nat)
    requires IsLife(states, events, fileSize) && i < |states|
    ensures states[i].status == Available
  {
    if i > 0 {
      NeverFull(states, events, fileSize, i - 1);
      assert Happens(states[i - 1], events[i - 1], states[i - 1 + 1], fileSize);
    }
  }

  /** A write resets the file under marks. */
  ghost predicate StrandsMarks(before: EntryState, event: Event, fileSize: nat) {
    event.Write? && ResetsMarks(before, event.dataLens, fileSize)
  }

  lemma EventKeepsMarks(before: EntryState, event: Event, after: EntryState, fileSize: nat)
    requires Happens(before, event, after, fileSize) && before.status == Available && MarksAgree(before)
    ensures MarksAgree(after) <==> !StrandsMarks(before, event, fileSize)
  {
  }

  ghost predicate NoneStranded(states: seq<EntryState>, events: seq<Event>, fileSize: nat, n: nat)
    requires n <= |events| < |states|
  {
    forall j :: 0 <= j < n ==> !StrandsMarks(states[j], events[j], fileSize)
  }

  /** In every life, the marks agree with the file all along exactly as long as no write resets the file under marks. */
  lemma {:induction false} MarksAgreeIff(states: seq<EntryState>, events: seq<Event>, fileSize: nat, i: nat)
    requires IsLife(states, events, fileSize) && i < |states|
    ensures (forall j :: 0 <= j <= i ==> MarksAgree(states[j])) <==> NoneStranded(states, events, fileSize, i)
  {
    if i > 0 {
      var n := i - 1;
      MarksAgreeIff(states, events, fileSize, n);
      NeverFull(states, events, fileSize, n);
      assert Happens(states[n], events[n], states[n + 1], fileSize);
      if MarksAgree(states[n]) { EventKeepsMarks(states[n], events[n], states[i], fileSize); }
    }
  }

  // ----- Two storages -----

  lemma EmptyAccounts()
    ensures TotalSize([0]) == FileLen([0]) == 136 && TotalSize([0, 0]) == FileLen([0, 0]) == 272
  {
    assert [0, 0][..1] == [0] && [0][..0] == [];
  }

  /** Two accounts without data do not fit into 136 bytes: the second fails the insertion of a larger storage. */
  method TooSmall() returns (storages: AccountStorage, e: StorageEntry, offsets: seq<Offset>, panic: Option<Panic>)
    ensures panic == Some(SlotTaken) && |offsets| == 1 && e.stored == [0]
  {
    storages := new AccountStorage();
    e := new StorageEntry(7, 136);
    storages.entries := map[7 := e];
    EmptyAccounts();
    assert [] + [0, 0] == [0, 0];
    var flags;
    offsets, flags, panic := storages.WriteAccounts(7, e, [0, 0], [false, false], 136);
    assert [0, 0][..1] == [0] && [] + [0, 0][..|offsets|] == [0, 0][..|offsets|];
  }

  lemma TwoStored(state: EntryState, offsets: seq<Offset>)
    requires AllStored([], {}, [0, 0], state.stored, state.live, offsets)
    ensures state.stored == [0, 0] && |offsets| == 2 && offsets[0] == 0 < offsets[1]
    ensures state.live == {offsets[0], offsets[1]}
  {
    assert offsets == [offsets[0], offsets[1]];
    assert [0, 0][..0] == [] && [] + [0, 0][..0] == [];
  }

  /** A storage filled by two accounts. */
  method Filled() returns (storages: AccountStorage, e: StorageEntry, second: Offset)
    ensures fresh(storages) && fresh(e) && storages.shrinking == map[] && storages.entries == map[7 := e]
    ensures e.Valid() && e.fileSize == 272 && 0 < second && e.State() == EntryState([0, 0], {0, second}, [], Available)
  {
    storages := new AccountStorage();
    e := new StorageEntry(7, 272);
    storages.entries := map[7 := e];
    EmptyAccounts();
    RoomForAll([], {}, [0, 0], 272);
    var offsets, _, panic := storages.WriteAccounts(7, e, [0, 0], [false, false], 272);
    TwoStored(e.State(), offsets);
    second := offsets[1];
  }

  lemma NoMarksAgree(state: EntryState)
    requires state.marks == []
    ensures MarksAgree(state)
  {
  }

  /** One account is reclaimed with a mark, and then the other. */
  method ReclaimBoth(e: StorageEntry, second: Offset)
    requires e.Valid() && 0 < second && e.State() == EntryState([0, 0], {0, second}, [], Available)
    modifies e
    ensures e.Valid() && e.State() == EntryState([0, 0], {}, e.marks, Available)
    ensures MarksAgree(e.State()) && e.marks != [] && e.marks[0].offset == 0
  {
    NoMarksAgree(e.State());
    var left := e.RemoveDead({0}, Some(9));
    assert {0, second} - {0} == {second} && 0 in {0};
    assert e.marks != [] && e.marks[0].offset == 0;
    left := e.RemoveDead({second}, None);
  }

  /** The first account written next finds no room, and then all the room there is. */
  lemma NextWriteResets(marks: seq<Obsolete>)
    ensures Resets([0, 0], {}, [0], 272)
    ensures Completes(EntryState([0, 0], {}, marks, Available), [0], 272, false)
  {
    EmptyAccounts();
    assert [] + [0] == [0];
  }

  lemma OneStored(state: EntryState, offsets: seq<Offset>)
    requires AllStored([], {}, [0], state.stored, state.live, offsets)
    ensures state.stored == [0] && state.live == {0}
  {
    assert [0][..0] == [] && [] + [0][..0] == [];
    assert offsets == [0];
  }

  /** A write that completes resets the file, and puts a live account where the old mark points. */
  method StaleMark() returns (e: StorageEntry)
    ensures fresh(e) && e.Valid() && e.stored == [0] && e.live == {0}
    ensures e.marks != [] && e.marks[0].offset == 0 && !MarksAgree(e.State())
  {
    var storages, second;
    storages, e, second := Filled();
    ReclaimBoth(e, second);
    ghost var before := e.State();
    NextWriteResets(e.marks);
    var offsets, _, panic := storages.WriteAccounts(7, e, [0], [false], 272);
    assert ResetsMarks(before, [0], 272);
    OneStored(e.State(), offsets);
  }
}
