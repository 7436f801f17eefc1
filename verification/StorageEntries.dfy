/** A storage entry: the append-only file of one slot and the counters of its live accounts. */
module StorageEntries {
  import opened Types
  import opened Sequences
  import opened StorageReader

  datatype Status = Available | Full | Candidate

  /** Where an append put its accounts, and how many bytes it used. */
  datatype StoredAccountsInfo = StoredAccountsInfo(offsets: seq<Offset>, size: nat)

  // ----- The file: accounts one after the other, known by their data lengths -----

  function Align(n: nat): (m: nat) {
    (n + 7) / 8 * 8
  }

  /** The room accounts of these data lengths take; the next one goes there. */
  function TotalSize(stored: seq<nat>): (n: nat) {
    if stored == [] then 0 else TotalSize(stored[..|stored| - 1]) + StoredSize(stored[|stored| - 1])
  }

  /** The length of the file: the last account is not padded. */
  function FileLen(stored: seq<nat>): (len: nat) {
    if stored == [] then 0
    else TotalSize(stored[..|stored| - 1]) + STORE_META_OVERHEAD + stored[|stored| - 1]
  }

  /** The data length of the account at an offset, if one starts there. */
  function DataLenAt(stored: seq<nat>, o: Offset): (dataLen: Option<nat>) {
    if stored == [] then None
    else if TotalSize(stored[..|stored| - 1]) == o then Some(stored[|stored| - 1])
    else DataLenAt(stored[..|stored| - 1], o)
  }

  predicate IsOffset(stored: seq<nat>, o: Offset) {
    DataLenAt(stored, o).Some?
  }

  lemma {:induction false} AlignedFile(stored: seq<nat>)
    ensures TotalSize(stored) % 8 == 0 && Align(FileLen(stored)) == TotalSize(stored)
  {
    if stored != [] { AlignedFile(stored[..|stored| - 1]); }
  }

  lemma {:induction false} TotalOfConcat(a: seq<nat>, b: seq<nat>)
    ensures TotalSize(a + b) == TotalSize(a) + TotalSize(b)
  {
    if b == [] {
      assert a + b == a;
    } else {
      TotalOfConcat(a, b[..|b| - 1]);
      assert (a + b)[..|a| + |b| - 1] == a + b[..|b| - 1];
    }
  }

  /** An account ends before the file does, and before the next offset. */
  lemma {:induction false} OffsetInFile(stored: seq<nat>, o: Offset)
    requires IsOffset(stored, o)
    ensures o + STORE_META_OVERHEAD + DataLenAt(stored, o).value <= FileLen(stored)
    ensures o + StoredSize(DataLenAt(stored, o).value) <= TotalSize(stored)
  {
    var n := |stored| - 1;
    if TotalSize(stored[..n]) != o { OffsetInFile(stored[..n], o); }
  }

  /** Accounts do not overlap. */
  lemma {:induction false} OffsetsApart(stored: seq<nat>, o: Offset, p: Offset)
    requires IsOffset(stored, o) && IsOffset(stored, p) && o < p
    ensures o + StoredSize(DataLenAt(stored, o).value) <= p
  {
    var n := |stored| - 1;
    if TotalSize(stored[..n]) == p {
      OffsetInFile(stored[..n], o);
    } else {
      OffsetInFile(stored[..n], p);
      OffsetsApart(stored[..n], o, p);
    }
  }

  /** Appending leaves the accounts there are where they are. */
  lemma {:induction false} AppendKeeps(stored: seq<nat>, more: seq<nat>, o: Offset)
    requires IsOffset(stored, o)
    ensures DataLenAt(stored + more, o) == DataLenAt(stored, o)
  {
    if more == [] {
      assert stored + more == stored;
    } else {
      var n := |more| - 1;
      assert (stored + more)[..|stored| + n] == stored + more[..n];
      AppendKeeps(stored, more[..n], o);
      TotalOfConcat(stored, more[..n]);
      OffsetInFile(stored, o);
    }
  }

  // ----- Live accounts -----

  /** The stored sizes of the accounts at the given offsets. */
  ghost function SizeAt(stored: seq<nat>, at: set<Offset>): (n: nat) {
    if stored == [] then 0
    else
      var rest := stored[..|stored| - 1];
      SizeAt(rest, at) + if TotalSize(rest) in at then StoredSize(stored[|stored| - 1]) else 0
  }

  lemma {:induction false} SizeAtSplit(stored: seq<nat>, at: set<Offset>, part: set<Offset>)
    requires part <= at
    ensures SizeAt(stored, at) == SizeAt(stored, at - part) + SizeAt(stored, part)
  {
    if stored != [] { SizeAtSplit(stored[..|stored| - 1], at, part); }
  }

  lemma {:induction false} SizeAtOne(stored: seq<nat>, o: Offset)
    ensures SizeAt(stored, {o}) == if IsOffset(stored, o) then StoredSize(DataLenAt(stored, o).value) else 0
  {
    if stored != [] {
      var n := |stored| - 1;
      SizeAtOne(stored[..n], o);
      if IsOffset(stored[..n], o) { OffsetInFile(stored[..n], o); }
    }
  }

  lemma {:induction false} SizeAtNone(stored: seq<nat>)
    ensures SizeAt(stored, {}) == 0
  {
    if stored != [] { SizeAtNone(stored[..|stored| - 1]); }
  }

  /** Adding up the sizes account by account gives the size at all the offsets. */
  lemma {:induction false} SizeAtMembers(stored: seq<nat>, offsets: seq<Offset>, dataLens: seq<nat>)
    requires Distinct(offsets) && |dataLens| == |offsets|
    requires forall i :: 0 <= i < |offsets| ==> DataLenAt(stored, offsets[i]) == Some(dataLens[i])
    ensures TotalSize(dataLens) == SizeAt(stored, Members(offsets)) && |Members(offsets)| == |offsets|
  {
    if offsets == [] {
      assert Members(offsets) == {};
      SizeAtNone(stored);
    } else {
      var n := |offsets| - 1;
      SizeAtMembers(stored, offsets[..n], dataLens[..n]);
      MembersOfPrefix(offsets, n);
      assert offsets[..n + 1] == offsets;
      var before := Members(offsets[..n]);
      assert before + {offsets[n]} - {offsets[n]} == before;
      SizeAtSplit(stored, before + {offsets[n]}, {offsets[n]});
      SizeAtOne(stored, offsets[n]);
    }
  }

  /** The offsets an append of `more` uses. */
  ghost predicate PlacedAt(stored: seq<nat>, more: seq<nat>, offsets: seq<Offset>) {
    |offsets| == |more| && forall i :: 0 <= i < |more| ==> offsets[i] == PlaceOf(stored, more, i)
  }

  ghost function PlaceOf(stored: seq<nat>, more: seq<nat>, i: nat): (o: Offset)
    requires i <= |more|
  {
    TotalSize(stored + more[..i])
  }

  lemma NextIsHigher(stored: seq<nat>, more: seq<nat>, i: nat, j: nat)
    requires i < j <= |more|
    ensures TotalSize(stored + more[..i]) < TotalSize(stored + more[..j])
  {
    var a, b := stored + more[..i], more[i..j];
    assert a + b == stored + more[..j];
    TotalOfConcat(a, b);
  }

  lemma PlacedOne(stored: seq<nat>, more: seq<nat>, i: nat)
    requires i < |more|
    ensures DataLenAt(stored + more, TotalSize(stored + more[..i])) == Some(more[i])
  {
    var a := stored + more[..i + 1];
    assert a[..|a| - 1] == stored + more[..i];
    assert a + more[i + 1..] == stored + more;
    AppendKeeps(a, more[i + 1..], TotalSize(stored + more[..i]));
  }

  /** Appended accounts are found at their offsets, which were free. */
  lemma AppendedAt(stored: seq<nat>, more: seq<nat>, offsets: seq<Offset>)
    requires PlacedAt(stored, more, offsets)
    ensures Distinct(offsets)
    ensures forall i :: 0 <= i < |more| ==>
            DataLenAt(stored + more, offsets[i]) == Some(more[i]) && !IsOffset(stored, offsets[i])
  {
    forall i | 0 <= i < |more|
      ensures DataLenAt(stored + more, offsets[i]) == Some(more[i]) && !IsOffset(stored, offsets[i])
    {
      PlacedOne(stored, more, i);
      TotalOfConcat(stored, more[..i]);
      if IsOffset(stored, offsets[i]) { OffsetInFile(stored, offsets[i]); }
    }
    forall i, j | 0 <= i < j < |offsets| ensures offsets[i] != offsets[j] { NextIsHigher(stored, more, i, j); }
  }

  lemma {:induction false} SizeBeyond(stored: seq<nat>, more: seq<nat>, at: set<Offset>)
    requires forall o :: o in at ==> IsOffset(stored, o)
    ensures SizeAt(stored + more, at) == SizeAt(stored, at)
  {
    if more == [] {
      assert stored + more == stored;
    } else {
      var n := |more| - 1;
      assert (stored + more)[..|stored| + n] == stored + more[..n];
      SizeBeyond(stored, more[..n], at);
      TotalOfConcat(stored, more[..n]);
      forall o | o in at ensures o != TotalSize(stored + more[..n]) { OffsetInFile(stored, o); }
    }
  }

  // ----- Marks -----

  /** Accounts marked obsolete are accounts of the file that are no longer live, each marked once. */
  ghost predicate MarksOk(stored: seq<nat>, marks: seq<Obsolete>, live: set<Offset>) {
    && (forall i :: 0 <= i < |marks| ==>
       DataLenAt(stored, marks[i].offset) == Some(marks[i].dataLen) && marks[i].offset !in live)
    && (forall i, j :: 0 <= i < j < |marks| ==> marks[i].offset != marks[j].offset)
  }

  /** The marks as of a slot are among the marks, in order. */
  lemma {:induction false} DeadRangeIsMarked(marks: seq<Obsolete>, asOf: Option<Slot>, k: nat) returns (i: nat)
    requires k < |DeadRanges(marks, asOf)|
    ensures i < |marks| && DeadRanges(marks, asOf)[k] == Range(marks[i].offset, StoredSize(marks[i].dataLen))
    ensures |DeadRanges(marks[..i], asOf)| == k
  {
    var n := |marks| - 1;
    if k < |DeadRanges(marks[..n], asOf)| {
      i := DeadRangeIsMarked(marks[..n], asOf, k);
      assert marks[..n][..i] == marks[..i];
    } else {
      i := n;
    }
  }

  /** What the reader of a storage relies on: dead ranges start inside the file and do not overlap. */
  lemma MarksAreWellPlaced(stored: seq<nat>, marks: seq<Obsolete>, live: set<Offset>, asOf: Option<Slot>)
    requires MarksOk(stored, marks, live)
    ensures WellPlaced(DeadRanges(marks, asOf), FileLen(stored))
  {
    var ranges := DeadRanges(marks, asOf);
    forall k | 0 <= k < |ranges| ensures ranges[k].start < FileLen(stored) {
      var i := DeadRangeIsMarked(marks, asOf, k);
      OffsetInFile(stored, marks[i].offset);
    }
    forall k, l | 0 <= k < |ranges| && 0 <= l < |ranges| && k != l
      ensures ranges[k].start != ranges[l].start
      ensures (ranges[k].start < ranges[l].start ==> ranges[k].start + ranges[k].size <= ranges[l].start)
    {
      var i := DeadRangeIsMarked(marks, asOf, k);
      var j := DeadRangeIsMarked(marks, asOf, l);
      assert i != j;
      if ranges[k].start < ranges[l].start { OffsetsApart(stored, marks[i].offset, marks[j].offset); }
    }
  }

  /** New marks for accounts that were live. */
  function MarksFor(offsets: seq<Offset>, dataLens: seq<nat>, slot: Slot): (added: seq<Obsolete>)
    requires |offsets| == |dataLens|
  {
    seq(|offsets|, i requires 0 <= i < |offsets| => Obsolete(offsets[i], dataLens[i], slot))
  }

  /** Marks were added for exactly these offsets. */
  ghost predicate NewlyMarked(before: seq<Obsolete>, after: seq<Obsolete>, offsets: set<Offset>, slot: Slot) {
    && before <= after
    && (forall i :: |before| <= i < |after| ==> after[i].offset in offsets && after[i].slot == slot)
    && (forall o :: o in offsets ==> exists i :: |before| <= i < |after| && after[i].offset == o)
  }

  lemma AllMarked(marks: seq<Obsolete>, sorted: seq<Offset>, dataLens: seq<nat>, slot: Slot)
    requires |sorted| == |dataLens|
    ensures NewlyMarked(marks, marks + MarksFor(sorted, dataLens, slot), Members(sorted), slot)
  {
    var after := marks + MarksFor(sorted, dataLens, slot);
    forall o | o in Members(sorted) ensures exists i :: |marks| <= i < |after| && after[i].offset == o {
      var j :| 0 <= j < |sorted| && sorted[j] == o;
      assert after[|marks| + j].offset == o;
    }
  }

  lemma MarkingKeepsMarks(stored: seq<nat>, marks: seq<Obsolete>, live: set<Offset>, offsets: seq<Offset>,
                          dataLens: seq<nat>, slot: Slot)
    requires MarksOk(stored, marks, live) && Distinct(offsets) && Members(offsets) <= live && |offsets| == |dataLens|
    requires forall i :: 0 <= i < |offsets| ==> DataLenAt(stored, offsets[i]) == Some(dataLens[i])
    ensures MarksOk(stored, marks + MarksFor(offsets, dataLens, slot), live - Members(offsets))
  {
    var all, n := marks + MarksFor(offsets, dataLens, slot), |marks|;
    forall i | 0 <= i < |all|
      ensures DataLenAt(stored, all[i].offset) == Some(all[i].dataLen) && all[i].offset !in live - Members(offsets)
    {
      if i >= n { assert offsets[i - n] in Members(offsets); }
    }
    forall i, j | 0 <= i < j < |all| ensures all[i].offset != all[j].offset {
      if j >= n {
        assert all[j].offset == offsets[j - n] && offsets[j - n] in Members(offsets);
        if i >= n { assert all[i].offset == offsets[i - n]; }
      }
    }
  }

  /** Accounts stored later do not disturb the marks. */
  lemma StoringKeepsMarks(stored: seq<nat>, more: seq<nat>, offsets: seq<Offset>, marks: seq<Obsolete>,
                          live: set<Offset>)
    requires PlacedAt(stored, more, offsets)
    ensures MarksOk(stored, marks, live) ==> MarksOk(stored + more, marks, live + Members(offsets))
  {
    AppendedAt(stored, more, offsets);
    if MarksOk(stored, marks, live) {
      forall i | 0 <= i < |marks|
        ensures DataLenAt(stored + more, marks[i].offset) == Some(marks[i].dataLen)
        ensures marks[i].offset !in live + Members(offsets)
      {
        AppendKeeps(stored, more, marks[i].offset);
      }
    }
  }

  /** A mark left behind when the file is reset refers to no account. */
  lemma ResetKeepsNoMark(marks: seq<Obsolete>, live: set<Offset>)
    ensures MarksOk([], marks, live) <==> marks == []
  {
    if marks != [] { assert DataLenAt([], marks[0].offset) == None; }
  }

  /** What removing accounts does to the number and the size of the live ones. */
  lemma RemovedFromLive(stored: seq<nat>, live: set<Offset>, gone: set<Offset>)
    requires gone <= live
    ensures |live - gone| == |live| - |gone|
    ensures SizeAt(stored, live - gone) == SizeAt(stored, live) - SizeAt(stored, gone)
    ensures |gone| == |live| <==> live - gone == {}
  {
    SizeAtSplit(stored, live, gone);
    assert live == (live - gone) + gone;
  }

  /** The offsets in ascending order. */
  method Sorted(offsets: set<Offset>) returns (sorted: seq<Offset>)
    ensures Distinct(sorted) && Members(sorted) == offsets
    ensures forall i, j :: 0 <= i < j < |sorted| ==> sorted[i] < sorted[j]
  {
    sorted := [];
    var todo := offsets;
    while todo != {}
      invariant Members(sorted) + todo == offsets
      invariant forall i, j :: 0 <= i < j < |sorted| ==> sorted[i] < sorted[j]
      invariant forall o, p :: o in sorted && p in todo ==> o < p
    {
      ghost var least := MinOffset(todo);
      var o: Offset :| o in todo && forall p :: p in todo ==> o <= p;
      assert Members(sorted + [o]) == Members(sorted) + {o};
      assert forall i :: 0 <= i < |sorted| ==> sorted[i] in sorted;
      sorted, todo := sorted + [o], todo - {o};
    }
  }

  ghost function MinOffset(s: set<Offset>): (least: Offset)
    requires s != {}
    ensures least in s && forall o :: o in s ==> least <= o
  {
    var o: Offset :| o in s;
    if s == {o} then o
    else
      var rest := MinOffset(s - {o});
      assert forall p :: p in s ==> p == o || p in s - {o};
      if o < rest then o else rest
  }

  /** The live accounts are in the file, and the counters are theirs. */
  ghost predicate Counts(stored: seq<nat>, live: set<Offset>, count: nat, aliveBytes: nat) {
    (forall o :: o in live ==> IsOffset(stored, o)) && count == |live| && aliveBytes == SizeAt(stored, live)
  }

  /** All accounts were stored, at new offsets, and are live. */
  ghost predicate AllStored(before: seq<nat>, wasLive: set<Offset>, dataLens: seq<nat>, stored: seq<nat>,
                            live: set<Offset>, offsets: seq<Offset>) {
    && stored == before + dataLens && PlacedAt(before, dataLens, offsets) && Distinct(offsets)
    && Members(offsets) !! wasLive && live == wasLive + Members(offsets)
    && (forall i :: 0 <= i < |offsets| ==> DataLenAt(stored, offsets[i]) == Some(dataLens[i]))
  }

  lemma NoneStored(stored: seq<nat>, live: set<Offset>)
    ensures AllStored(stored, live, [], stored, live, [])
  {
    assert stored + [] == stored && live + Members([]) == live;
  }

  // ----- The entry -----

  /** What a storage holds: its file, the live accounts in it, its marks and its status. */
  datatype EntryState = EntryState(stored: seq<nat>, live: set<Offset>, marks: seq<Obsolete>, status: Status)

  ghost predicate MarksAgree(state: EntryState) {
    MarksOk(state.stored, state.marks, state.live)
  }

  /** Removing the accounts resets the file under marks that stay. */
  ghost predicate LeavesMarks(before: EntryState, offsets: set<Offset>) {
    before.status == Full && offsets == before.live && before.marks != []
  }

  /**
   * The accounts at the offsets are live no more, and only a full storage is reset when all go. They are
   * marked if asked, unless all go, and the marks agree with the file exactly unless it is reset under them.
   */
  ghost predicate TakenOff(before: EntryState, after: EntryState, offsets: set<Offset>, marking: Option<Slot>) {
    && after.live == before.live - offsets
    && (if before.status == Full && offsets == before.live then after.stored == [] && after.status == Available
        else after.stored == before.stored && after.status == before.status)
    && (if marking.Some? && offsets != before.live then NewlyMarked(before.marks, after.marks, offsets, marking.value)
        else after.marks == before.marks)
    && (MarksAgree(before) ==> (MarksAgree(after) <==> !LeavesMarks(before, offsets)))
  }

  class StorageEntry {
    const slot: Slot
    const fileSize: nat
    var stored: seq<nat>
    var len: nat
    var count: nat
    var aliveBytes: nat
    var status: Status
    var marks: seq<Obsolete>
    ghost var live: set<Offset>

    constructor (slot: Slot, fileSize: nat)
      ensures Valid() && live == {} && stored == [] && marks == [] && status == Available
      ensures this.slot == slot && this.fileSize == fileSize
    {
      this.slot, this.fileSize := slot, fileSize;
      stored, len, count, aliveBytes, status, marks := [], 0, 0, 0, Available, [];
      live := {};
    }

    /** The counters are those of the live accounts, and every live account is in the file. */
    ghost predicate Valid()
      reads this
    {
      len == FileLen(stored) && Counts(stored, live, count, aliveBytes)
    }

    ghost function State(): (state: EntryState)
      reads this
    {
      EntryState(stored, live, marks, status)
    }

    function RemainingBytes(): (n: nat)
      reads this
    {
      if Align(len) <= fileSize then fileSize - Align(len) else 0
    }

    /** Append accounts until one does not fit. */
    method AppendAccounts(dataLens: seq<nat>) returns (info: Option<StoredAccountsInfo>)
      requires len == FileLen(stored)
      modifies this`len, this`stored
      ensures len == FileLen(stored)
      ensures info.None? ==> stored == old(stored)
      ensures info.None? <==> dataLens == [] || Align(old(len)) + STORE_META_OVERHEAD + dataLens[0] > fileSize
      ensures info.Some? ==>
                var n := |info.value.offsets|;
                && 0 < n <= |dataLens| && stored == old(stored) + dataLens[..n]
                && PlacedAt(old(stored), dataLens[..n], info.value.offsets)
                && info.value.size == TotalSize(dataLens[..n])
                && len <= fileSize && (n < |dataLens| ==> Align(len) + STORE_META_OVERHEAD + dataLens[n] > fileSize)
    {
      var offsets: seq<Offset> := [];
      var i := 0;
      ghost var before: seq<nat> := stored;
      assert stored == before + dataLens[..0];
      AlignedFile(stored);
      while i < |dataLens| && Align(len) + STORE_META_OVERHEAD + dataLens[i] <= fileSize
        invariant 0 <= i <= |dataLens| && |offsets| == i
        invariant stored == before + dataLens[..i] && len == FileLen(stored) && Align(len) == TotalSize(stored)
        invariant PlacedAt(before, dataLens[..i], offsets)
        invariant i == 0 ==> len == old(len)
        invariant i > 0 ==> Align(old(len)) + STORE_META_OVERHEAD + dataLens[0] <= fileSize && len <= fileSize
      {
        NextPlaced(before, dataLens, i, offsets);
        NextSlice(before, dataLens, i);
        offsets := offsets + [Align(len)];
        stored, len := stored + [dataLens[i]], Align(len) + STORE_META_OVERHEAD + dataLens[i];
        AlignedFile(stored);
        i := i + 1;
      }
      if offsets == [] {
        return None;
      }
      TotalOfConcat(before, dataLens[..i]);
      info := Some(StoredAccountsInfo(offsets, Align(len) - offsets[0]));
    }

    /** Forget the file's accounts; only ever done when none is live. */
    method Reset()
      modifies this`len, this`stored
      ensures stored == [] && len == 0
    {
      stored, len := [], 0;
    }

    method SetStatus(next: Status)
      requires Valid()
      modifies this`status, this`len, this`stored
      ensures Valid() && stored == if next == Full && live == {} then [] else old(stored)
      ensures status == if next == Full && live == {} then Available else next
    {
      status := next;
      if next == Full && count == 0 {
        SizeAtNone(stored);
        Reset();
        status := Available;
      }
    }

    method AddAccounts(numAccounts: nat, numBytes: nat)
      modifies this`count, this`aliveBytes
      ensures count == old(count) + numAccounts && aliveBytes == old(aliveBytes) + numBytes
    {
      count, aliveBytes := count + numAccounts, aliveBytes + numBytes;
    }

    /** Make appended accounts live. */
    method AddStored(ghost before: seq<nat>, ghost more: seq<nat>, info: StoredAccountsInfo)
      requires len == FileLen(stored) && stored == before + more && PlacedAt(before, more, info.offsets)
      requires Counts(before, live, count, aliveBytes) && info.size == TotalSize(more)
      modifies this`count, this`aliveBytes, this`live
      ensures Valid() && AllStored(before, old(live), more, stored, live, info.offsets)
      ensures MarksOk(before, marks, old(live)) ==> MarksOk(stored, marks, live)
    {
      StoredIsLive(before, more, info.offsets, live);
      StoringKeepsMarks(before, more, info.offsets, marks, live);
      AddAccounts(|info.offsets|, info.size);
      live := live + Members(info.offsets);
    }

    /** Store accounts, as many as fit; they become live. */
    method Store(dataLens: seq<nat>) returns (offsets: seq<Offset>)
      requires Valid() && dataLens != []
      modifies this
      ensures Valid() && marks == old(marks) && |offsets| <= |dataLens|
      ensures AllStored(if offsets == [] && old(live) == {} then [] else old(stored), old(live),
                        dataLens[..|offsets|], stored, live, offsets)
      ensures status == if offsets == [] && live != {} then Full else Available
      ensures offsets == [] <==> Align(old(len)) + STORE_META_OVERHEAD + dataLens[0] > fileSize
      ensures offsets != [] ==> len <= fileSize
      ensures 0 < |offsets| < |dataLens| ==> Align(len) + STORE_META_OVERHEAD + dataLens[|offsets|] > fileSize
      ensures old(MarksOk(stored, marks, live)) ==>
              (MarksOk(stored, marks, live) <==> !(old(StoringResets(dataLens[0])) && old(marks) != []))
    {
      ghost var before: seq<nat> := stored;
      var info := AppendAccounts(dataLens);
      if info.None? {
        SetStatus(Full);
        ResetKeepsNoMark(marks, live);
        offsets := [];
        NoneStored(stored, live);
        return;
      }
      offsets := info.value.offsets;
      AddStored(before, dataLens[..|offsets|], info.value);
      SetStatus(Available);
    }

    /** Whether failing to store an account resets the file: nothing in it is live. */
    ghost predicate StoringResets(dataLen: nat)
      reads this
    {
      live == {} && Align(len) + STORE_META_OVERHEAD + dataLen > fileSize
    }

    /** Take accounts off the counters; a full storage that becomes empty is reset for reuse. */
    method RemoveAccounts(numBytes: nat, numAccounts: nat) returns (remaining: nat)
      requires numAccounts <= count && numBytes <= aliveBytes
      modifies this`count, this`aliveBytes, this`status, this`len, this`stored
      ensures count == old(count) - numAccounts == remaining && aliveBytes == old(aliveBytes) - numBytes
      ensures if old(count) == numAccounts && old(status) == Full then stored == [] && len == 0 && status == Available
              else stored == old(stored) && len == old(len) && status == old(status)
    {
      if count == numAccounts && status == Full {
        Reset();
        status := Available;
      }
      assert count >= numAccounts;
      aliveBytes := aliveBytes - numBytes;
      count := count - numAccounts;
      remaining := count;
    }

    /** The data lengths of the accounts at the given offsets. */
    method GetAccountDataLens(offsets: seq<Offset>) returns (dataLens: seq<nat>)
      requires len == FileLen(stored) && forall i :: 0 <= i < |offsets| ==> IsOffset(stored, offsets[i])
      ensures |dataLens| == |offsets|
      ensures forall i :: 0 <= i < |offsets| ==> DataLenAt(stored, offsets[i]) == Some(dataLens[i])
    {
      dataLens := [];
      for i := 0 to |offsets|
        invariant |dataLens| == i && forall j :: 0 <= j < i ==> DataLenAt(stored, offsets[j]) == Some(dataLens[j])
      {
        var dataLen := DataLenAt(stored, offsets[i]).value;
        OffsetInFile(stored, offsets[i]);
        if offsets[i] + STORE_META_OVERHEAD + dataLen > len {
          break;
        }
        dataLens := dataLens + [dataLen];
      }
    }

    /** Remove some live accounts; when all go at once their sizes are not looked up. */
    method RemoveDead(offsets: set<Offset>, marking: Option<Slot>) returns (remaining: nat)
      requires Valid() && offsets <= live
      modifies this
      ensures Valid() && TakenOff(old(State()), State(), offsets, marking)
      ensures remaining == |live| && (remaining == 0 <==> live == {})
    {
      RemovedFromLive(stored, live, offsets);
      SizeAtNone(stored);
      if |offsets| == count {
        assert offsets == live;
        remaining := RemoveAccounts(aliveBytes, |offsets|);
      } else {
        var sorted := Sorted(offsets);
        var dataLens := GetAccountDataLens(sorted);
        SizeAtMembers(stored, sorted, dataLens);
        remaining := RemoveAccounts(TotalSize(dataLens), |sorted|);
        if marking.Some? {
          if MarksOk(stored, marks, live) {
            MarkingKeepsMarks(stored, marks, live, sorted, dataLens, marking.value);
          }
          AllMarked(marks, sorted, dataLens, marking.value);
          marks := marks + MarksFor(sorted, dataLens, marking.value);
        }
      }
      live := live - offsets;
      ResetKeepsNoMark(marks, live);
    }
  }

  /** What storing does to the live accounts, their number and their size. */
  lemma StoredIsLive(stored: seq<nat>, more: seq<nat>, offsets: seq<Offset>, live: set<Offset>)
    requires PlacedAt(stored, more, offsets) && forall o :: o in live ==> IsOffset(stored, o)
    ensures Distinct(offsets) && Members(offsets) !! live && |live + Members(offsets)| == |live| + |offsets|
    ensures forall i :: 0 <= i < |offsets| ==> DataLenAt(stored + more, offsets[i]) == Some(more[i])
    ensures forall o :: o in live + Members(offsets) ==> IsOffset(stored + more, o)
    ensures SizeAt(stored + more, live + Members(offsets)) == SizeAt(stored, live) + TotalSize(more)
  {
    var added := Members(offsets);
    AppendedAt(stored, more, offsets);
    SizeAtMembers(stored + more, offsets, more);
    SizeBeyond(stored, more, live);
    SizeAtSplit(stored + more, live + added, added);
    assert live + added - added == live;
    forall o | o in live ensures IsOffset(stored + more, o) { AppendKeeps(stored, more, o); }
  }

  lemma NextSlice(before: seq<nat>, dataLens: seq<nat>, i: nat)
    requires i < |dataLens|
    ensures before + dataLens[..i] + [dataLens[i]] == before + dataLens[..i + 1]
    ensures (before + dataLens[..i + 1])[..|before| + i] == before + dataLens[..i]
  {
  }

  lemma SamePlace(before: seq<nat>, dataLens: seq<nat>, i: nat, j: nat)
    requires j <= i < |dataLens|
    ensures PlaceOf(before, dataLens[..i + 1], j) == PlaceOf(before, dataLens[..i], j)
  {
    assert dataLens[..i + 1][..j] == dataLens[..i][..j];
  }

  lemma NextPlaced(before: seq<nat>, dataLens: seq<nat>, i: nat, offsets: seq<Offset>)
    requires i < |dataLens| && PlacedAt(before, dataLens[..i], offsets)
    ensures PlacedAt(before, dataLens[..i + 1], offsets + [TotalSize(before + dataLens[..i])])
  {
    var next, more := offsets + [TotalSize(before + dataLens[..i])], dataLens[..i + 1];
    forall j | 0 <= j < |more| ensures next[j] == PlaceOf(before, more, j) {
      SamePlace(before, dataLens, i, j);
      assert j == i ==> dataLens[..i][..j] == dataLens[..i];
    }
  }
}
