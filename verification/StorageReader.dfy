/** Reading an account storage file in chunks while leaving out the accounts marked obsolete. */
module StorageReader {
  import opened Types
  import opened Sequences

  const STORE_META_OVERHEAD: nat := 136

  /** The stored size of an account with `dataLen` bytes of data, aligned to eight bytes. */
  function StoredSize(dataLen: nat): (size: nat) {
    (STORE_META_OVERHEAD + dataLen + 7) / 8 * 8
  }

  /** A stretch of dead bytes; the last one of a file may reach beyond its end. */
  datatype Range = Range(start: nat, size: nat)

  predicate Covers(r: Range, i: nat) {
    r.start <= i < r.start + r.size
  }

  predicate Dead(ranges: seq<Range>, i: nat) {
    exists j :: 0 <= j < |ranges| && Covers(ranges[j], i)
  }

  /** The bytes from position `i` on that no dead range covers. */
  function Survivors(file: seq<Byte>, ranges: seq<Range>, i: nat): (bytes: seq<Byte>)
    requires i <= |file|
    decreases |file| - i
  {
    if i == |file| then []
    else if Dead(ranges, i) then Survivors(file, ranges, i + 1)
    else [file[i]] + Survivors(file, ranges, i + 1)
  }

  /** Obsolete accounts have distinct offsets inside the file and do not overlap. */
  ghost predicate WellPlaced(ranges: seq<Range>, total: nat) {
    && (forall i :: 0 <= i < |ranges| ==> ranges[i].start < total)
    && (forall i, j :: 0 <= i < |ranges| && 0 <= j < |ranges| && i != j ==>
         ranges[i].start != ranges[j].start
           && (ranges[i].start < ranges[j].start ==> ranges[i].start + ranges[i].size <= ranges[j].start))
  }

  function DeadBytes(ranges: seq<Range>, total: nat): (n: int) {
    if ranges == [] then 0
    else
      var last := ranges[|ranges| - 1];
      DeadBytes(ranges[..|ranges| - 1], total)
      + if last.size < total - last.start then last.size else total - last.start
  }

  // ----- Survivors -----

  lemma {:induction false} SkipDead(file: seq<Byte>, ranges: seq<Range>, a: nat, b: nat)
    requires a <= b <= |file| && forall i :: a <= i < b ==> Dead(ranges, i)
    ensures Survivors(file, ranges, a) == Survivors(file, ranges, b)
    decreases b - a
  {
    if a < b { SkipDead(file, ranges, a + 1, b); }
  }

  lemma {:induction false} CopyAlive(file: seq<Byte>, ranges: seq<Range>, a: nat, b: nat)
    requires a <= b <= |file| && forall i :: a <= i < b ==> !Dead(ranges, i)
    ensures Survivors(file, ranges, a) == file[a..b] + Survivors(file, ranges, b)
    decreases b - a
  {
    if a < b {
      CopyAlive(file, ranges, a + 1, b);
      SliceHead(file, a, b);
    }
  }

  /** Only whether each byte is dead matters. */
  lemma {:induction false} SameSurvivors(file: seq<Byte>, ranges: seq<Range>, others: seq<Range>, i: nat)
    requires i <= |file| && forall j :: i <= j < |file| ==> (Dead(ranges, j) <==> Dead(others, j))
    ensures Survivors(file, ranges, i) == Survivors(file, others, i)
    decreases |file| - i
  {
    if i < |file| { SameSurvivors(file, ranges, others, i + 1); }
  }

  // ----- Sorting -----

  /** A stack of ranges, the lowest on top. */
  ghost predicate Descending(ranges: seq<Range>) {
    forall i, j :: 0 <= i < j < |ranges| ==> ranges[j].start <= ranges[i].start
  }

  function InsertDescending(sorted: seq<Range>, r: Range): (out: seq<Range>)
    ensures multiset(out) == multiset(sorted) + multiset{r}
  {
    if sorted == [] || sorted[0].start < r.start then [r] + sorted
    else
      assert sorted == [sorted[0]] + sorted[1..];
      [sorted[0]] + InsertDescending(sorted[1..], r)
  }

  lemma {:induction false} InsertKeepsOrder(sorted: seq<Range>, r: Range)
    requires Descending(sorted)
    ensures Descending(InsertDescending(sorted, r))
  {
    if sorted != [] && sorted[0].start >= r.start {
      var rest := InsertDescending(sorted[1..], r);
      InsertKeepsOrder(sorted[1..], r);
      forall i | 0 <= i < |rest| ensures rest[i].start <= sorted[0].start {
        assert rest[i] in multiset(rest);
        assert rest[i] in sorted[1..] || rest[i] == r;
      }
    }
  }

  function SortDescending(ranges: seq<Range>): (sorted: seq<Range>)
    ensures multiset(sorted) == multiset(ranges)
  {
    if ranges == [] then []
    else
      assert ranges == ranges[..|ranges| - 1] + [ranges[|ranges| - 1]];
      InsertDescending(SortDescending(ranges[..|ranges| - 1]), ranges[|ranges| - 1])
  }

  lemma {:induction false} SortIsDescending(ranges: seq<Range>)
    ensures Descending(SortDescending(ranges))
  {
    if ranges != [] {
      SortIsDescending(ranges[..|ranges| - 1]);
      InsertKeepsOrder(SortDescending(ranges[..|ranges| - 1]), ranges[|ranges| - 1]);
    }
  }

  /** Sorting keeps the ranges apart and makes their starts strictly descend. */
  lemma SortKeepsPlacement(ranges: seq<Range>, total: nat)
    requires WellPlaced(ranges, total)
    ensures WellPlaced(SortDescending(ranges), total) && IsStack(SortDescending(ranges), 0, total)
    ensures forall i :: Dead(SortDescending(ranges), i) <==> Dead(ranges, i)
  {
    var sorted := SortDescending(ranges);
    SortIsDescending(ranges);
    SameElements(ranges, sorted);
    PermutationIsDistinct(ranges, sorted);
    PlacementByMembers(ranges, sorted, total);
    forall i: nat ensures Dead(sorted, i) <==> Dead(ranges, i) {
      DeadByMembers(ranges, i);
      DeadByMembers(sorted, i);
    }
  }

  /** Being apart is a matter of which ranges there are. */
  lemma PlacementByMembers(ranges: seq<Range>, others: seq<Range>, total: nat)
    requires WellPlaced(ranges, total) && Distinct(others) && forall r :: r in others ==> r in ranges
    ensures WellPlaced(others, total)
  {
    forall i | 0 <= i < |others| ensures others[i].start < total { assert others[i] in ranges; }
    forall i, j | 0 <= i < |others| && 0 <= j < |others| && i != j
      ensures others[i].start != others[j].start
      ensures (others[i].start < others[j].start ==> others[i].start + others[i].size <= others[j].start)
    {
      assert others[i] in others && others[j] in others;
      var a :| 0 <= a < |ranges| && ranges[a] == others[i];
      var b :| 0 <= b < |ranges| && ranges[b] == others[j];
      assert others[i] != others[j];
    }
  }

  lemma DeadByMembers(ranges: seq<Range>, i: nat)
    ensures Dead(ranges, i) <==> exists r :: r in ranges && Covers(r, i)
  {
    if r :| r in ranges && Covers(r, i) {
      var j :| 0 <= j < |ranges| && ranges[j] == r;
      assert Covers(ranges[j], i);
    }
  }

  /** Ranges at or after `from`, inside the file, apart from one another, the lowest on top of the stack. */
  ghost predicate IsStack(stack: seq<Range>, from: nat, total: nat) {
    && (forall i :: 0 <= i < |stack| ==> from <= stack[i].start < total)
    && (forall i, j :: 0 <= i < j < |stack| ==>
       stack[j].start < stack[i].start && stack[j].start + stack[j].size <= stack[i].start)
  }

  function EndOf(r: Range, total: nat): (end: nat)
    requires r.start < total
    ensures r.start <= end <= total && forall i :: r.start <= i < end ==> Covers(r, i)
  {
    r.start + Min(r.size, total - r.start)
  }

  /**
    Below the top of the stack nothing is dead; the top range is dead to its end; after it the rest of the stack
    decides.
  */
  lemma TopOfStack(stack: seq<Range>, from: nat, total: nat)
    requires IsStack(stack, from, total) && stack != []
    ensures var n := |stack| - 1;
            var end := EndOf(stack[n], total);
            && (forall i :: from <= i < stack[n].start ==> !Dead(stack, i))
            && (forall i :: stack[n].start <= i < end ==> Dead(stack, i))
            && IsStack(stack[..n], end, total)
            && (forall i :: end <= i < total ==> (Dead(stack, i) <==> Dead(stack[..n], i)))
  {
    var n := |stack| - 1;
    var end := EndOf(stack[n], total);
    forall i | stack[n].start <= i < end ensures Dead(stack, i) { assert Covers(stack[n], i); }
    forall i | end <= i < total ensures Dead(stack, i) <==> Dead(stack[..n], i) {
      if Dead(stack, i) {
        var j :| 0 <= j < |stack| && Covers(stack[j], i);
        assert j < n ==> Covers(stack[..n][j], i);
      }
      if Dead(stack[..n], i) {
        var j :| 0 <= j < n && Covers(stack[..n][j], i);
        assert Covers(stack[j], i);
      }
    }
  }

  /** What is left of the file is its length less the dead bytes. */
  lemma {:induction false} SurvivorsLength(file: seq<Byte>, stack: seq<Range>, from: nat)
    requires from <= |file| && IsStack(stack, from, |file|)
    ensures |Survivors(file, stack, from)| == |file| - from - DeadBytes(stack, |file|)
    decreases |stack|
  {
    var total := |file|;
    if stack == [] {
      CopyAlive(file, stack, from, total);
    } else {
      var n := |stack| - 1;
      var end := EndOf(stack[n], total);
      TopOfStack(stack, from, total);
      CopyAlive(file, stack, from, stack[n].start);
      SkipDead(file, stack, stack[n].start, end);
      SameSurvivors(file, stack, stack[..n], end);
      SurvivorsLength(file, stack[..n], end);
    }
  }

  lemma {:induction false} DeadBytesWithout(ranges: seq<Range>, total: nat, i: nat)
    requires i < |ranges|
    ensures DeadBytes(ranges, total) == DeadBytes(Without(ranges, i), total) + DeadBytes([ranges[i]], total)
  {
    var n := |ranges| - 1;
    assert [ranges[i]][..0] == [];
    if i == n {
      assert Without(ranges, i) == ranges[..n];
    } else {
      DeadBytesWithout(ranges[..n], total, i);
      var rest := Without(ranges, i);
      assert rest[..|rest| - 1] == Without(ranges[..n], i) && rest[|rest| - 1] == ranges[n];
    }
  }

  lemma {:induction false} DeadBytesOfPermutation(ranges: seq<Range>, others: seq<Range>, total: nat)
    requires multiset(ranges) == multiset(others)
    ensures DeadBytes(ranges, total) == DeadBytes(others, total)
  {
    if ranges == [] {
      assert |multiset(others)| == 0;
    } else {
      var i := MatchLast(ranges, others);
      DeadBytesOfPermutation(ranges[..|ranges| - 1], Without(others, i), total);
      DeadBytesWithout(others, total, i);
      assert [others[i]][..0] == [];
    }
  }

  // ----- The reader -----

  /** The dead ranges of the accounts marked obsolete as of `asOf`, or of all of them. */
  function DeadRanges(marks: seq<Obsolete>, asOf: Option<Slot>): (ranges: seq<Range>) {
    if marks == [] then []
    else
      var last := marks[|marks| - 1];
      DeadRanges(marks[..|marks| - 1], asOf)
      + if asOf.None? || last.slot <= asOf.value then [Range(last.offset, StoredSize(last.dataLen))] else []
  }

  /**
    The byte belongs to an account marked obsolete by `asOf`, or ever: to its 136 bytes of header, its data, or what
    fills the last eight bytes up.
  */
  ghost predicate IsObsolete(marks: seq<Obsolete>, asOf: Option<Slot>, i: nat) {
    exists j :: 0 <= j < |marks| && ReachesTo(marks[j], i) && (asOf.Some? ==> marks[j].slot <= asOf.value)
  }

  ghost predicate ReachesTo(mark: Obsolete, i: nat) {
    mark.offset <= i && (i - mark.offset) / 8 * 8 < 136 + mark.dataLen
  }

  /** The stored size is that of header and data, with less than eight bytes to fill it up to a multiple of eight. */
  lemma StoredSizeMeaning(dataLen: nat)
    ensures StoredSize(dataLen) % 8 == 0 && 136 + dataLen <= StoredSize(dataLen) < 136 + dataLen + 8
    ensures forall x: nat :: x < StoredSize(dataLen) <==> x / 8 * 8 < 136 + dataLen
  {
  }

  /** The dead ranges are made of exactly these bytes. */
  lemma {:induction false} DeadIsObsolete(marks: seq<Obsolete>, asOf: Option<Slot>, i: nat)
    ensures Dead(DeadRanges(marks, asOf), i) <==> IsObsolete(marks, asOf, i)
  {
    if marks != [] {
      var front, last := marks[..|marks| - 1], marks[|marks| - 1];
      DeadIsObsolete(front, asOf, i);
      LastRange(front, last, asOf, i);
      assert marks == front + [last];
      OneMoreMark(front, last, asOf, i);
    }
  }

  lemma LastRange(front: seq<Obsolete>, last: Obsolete, asOf: Option<Slot>, i: nat)
    ensures Dead(DeadRanges(front + [last], asOf), i) <==>
            Dead(DeadRanges(front, asOf), i) || ((asOf.Some? ==> last.slot <= asOf.value) && ReachesTo(last, i))
  {
    var marks := front + [last];
    assert marks[..|marks| - 1] == front;
    var before, after := DeadRanges(front, asOf), DeadRanges(marks, asOf);
    StoredSizeMeaning(last.dataLen);
    forall j | 0 <= j < |before| ensures after[j] == before[j] {}
    if asOf.Some? ==> last.slot <= asOf.value {
      assert after[|before|] == Range(last.offset, StoredSize(last.dataLen));
      assert Covers(after[|before|], i) <==> ReachesTo(last, i);
    }
  }

  lemma OneMoreMark(front: seq<Obsolete>, last: Obsolete, asOf: Option<Slot>, i: nat)
    ensures IsObsolete(front + [last], asOf, i) <==>
            IsObsolete(front, asOf, i) || ((asOf.Some? ==> last.slot <= asOf.value) && ReachesTo(last, i))
  {
    var marks := front + [last];
    forall j | 0 <= j < |front| ensures marks[j] == front[j] {}
    assert marks[|front|] == last;
  }

  /** The places of the live bytes, in order. */
  ghost predicate AreLive(places: seq<nat>, from: nat, total: nat, marks: seq<Obsolete>, asOf: Option<Slot>) {
    && (forall j, k :: 0 <= j < k < |places| ==> places[j] < places[k])
    && (forall i: nat :: i in places <==> from <= i < total && !IsObsolete(marks, asOf, i))
  }

  ghost predicate TakenFrom(bytes: seq<Byte>, file: seq<Byte>, places: seq<nat>) {
    |bytes| == |places| && forall j :: 0 <= j < |places| ==> places[j] < |file| && bytes[j] == file[places[j]]
  }

  /** The bytes are those of the file that belong to no obsolete account, in their order. */
  ghost predicate LiveBytes(bytes: seq<Byte>, file: seq<Byte>, marks: seq<Obsolete>, asOf: Option<Slot>) {
    exists places :: AreLive(places, 0, |file|, marks, asOf) && TakenFrom(bytes, file, places)
  }

  lemma NextPlaces(rest: seq<nat>, from: nat, total: nat, marks: seq<Obsolete>, asOf: Option<Slot>)
    requires from < total && AreLive(rest, from + 1, total, marks, asOf)
    ensures AreLive(if IsObsolete(marks, asOf, from) then rest else [from] + rest, from, total, marks, asOf)
  {
    assert forall j :: 0 <= j < |rest| ==> rest[j] in rest;
  }

  lemma NextTaken(bytes: seq<Byte>, file: seq<Byte>, places: seq<nat>, from: nat)
    requires TakenFrom(bytes, file, places) && from < |file|
    ensures TakenFrom([file[from]] + bytes, file, [from] + places)
  {
  }

  lemma {:induction false} SurvivorsAreLive(file: seq<Byte>, marks: seq<Obsolete>, asOf: Option<Slot>, from: nat)
    returns (places: seq<nat>)
    requires from <= |file|
    ensures AreLive(places, from, |file|, marks, asOf)
    ensures TakenFrom(Survivors(file, DeadRanges(marks, asOf), from), file, places)
    decreases |file| - from
  {
    if from == |file| {
      places := [];
    } else {
      var rest := SurvivorsAreLive(file, marks, asOf, from + 1);
      DeadIsObsolete(marks, asOf, from);
      NextPlaces(rest, from, |file|, marks, asOf);
      NextTaken(Survivors(file, DeadRanges(marks, asOf), from + 1), file, rest, from);
      places := if IsObsolete(marks, asOf, from) then rest else [from] + rest;
    }
  }

  /** Deleting the dead bytes of a file a chunk at a time: the state of a reader at a position. */
  ghost predicate AtPosition(file: seq<Byte>, dead: seq<Range>, stack: seq<Range>, position: nat) {
    && position <= |file|
    && IsStack(stack, position, |file|)
    && (forall i :: position <= i < |file| ==> (Dead(stack, i) <==> Dead(dead, i)))
  }

  lemma SortedAtStart(file: seq<Byte>, dead: seq<Range>)
    requires WellPlaced(dead, |file|)
    ensures AtPosition(file, dead, SortDescending(dead), 0)
    ensures |Survivors(file, dead, 0)| == |file| - DeadBytes(dead, |file|)
  {
    var stack := SortDescending(dead);
    SortKeepsPlacement(dead, |file|);
    SurvivorsLength(file, stack, 0);
    SameSurvivors(file, dead, stack, 0);
    DeadBytesOfPermutation(dead, stack, |file|);
  }

  /** Popping the range that starts at the position loses no live byte. */
  lemma SkipTop(file: seq<Byte>, dead: seq<Range>, stack: seq<Range>, position: nat)
    requires AtPosition(file, dead, stack, position) && stack != [] && stack[|stack| - 1].start == position
    ensures var end := EndOf(stack[|stack| - 1], |file|);
            && AtPosition(file, dead, stack[..|stack| - 1], end)
            && Survivors(file, dead, end) == Survivors(file, dead, position)
  {
    TopOfStack(stack, position, |file|);
    SkipDead(file, dead, position, EndOf(stack[|stack| - 1], |file|));
  }

  /** How far the live bytes reach without a gap. */
  function Run(stack: seq<Range>, position: nat, total: nat): (n: int) {
    (if stack != [] then stack[|stack| - 1].start else total) - position
  }

  /** Bytes below the top of the stack are live, and reading some of them advances the reader. */
  lemma ReadRun(file: seq<Byte>, dead: seq<Range>, stack: seq<Range>, position: nat, n: nat)
    requires AtPosition(file, dead, stack, position) && n <= Run(stack, position, |file|)
    ensures AtPosition(file, dead, stack, position + n)
    ensures Survivors(file, dead, position) == file[position..position + n] + Survivors(file, dead, position + n)
  {
    if stack != [] { TopOfStack(stack, position, |file|); }
    CopyAlive(file, dead, position, position + n);
  }

  lemma JoinChunk(filled: seq<Byte>, chunk: seq<Byte>, rest: seq<Byte>, next: seq<Byte>)
    requires rest == chunk + next
    ensures filled + rest == filled + chunk + next
  {
  }

  class AccountStorageReader {
    var stack: seq<Range>
    var currentOffset: nat
    const file: seq<Byte>
    const mapped: bool
    const aliveBytes: nat
    ghost const dead: seq<Range>

    /** Open a storage as of a slot; `aliveBytes` is what the reads will deliver in all. */
    constructor (file: seq<Byte>, marks: seq<Obsolete>, asOf: Option<Slot>, mapped: bool)
      requires WellPlaced(DeadRanges(marks, asOf), |file|)
      ensures Valid() && this.file == file && this.mapped == mapped && dead == DeadRanges(marks, asOf)
      ensures Remaining() == Survivors(file, DeadRanges(marks, asOf), 0) && aliveBytes == |Remaining()|
      ensures LiveBytes(Remaining(), file, marks, asOf)
    {
      var ranges := DeadRanges(marks, asOf);
      SortedAtStart(file, ranges);
      ghost var places := SurvivorsAreLive(file, marks, asOf, 0);
      this.file, this.mapped, dead := file, mapped, ranges;
      aliveBytes := |file| - DeadBytes(ranges, |file|);
      stack, currentOffset := SortDescending(ranges), 0;
    }

    ghost predicate Valid()
      reads this
    {
      AtPosition(file, dead, stack, currentOffset)
    }

    /** What the next reads will deliver. */
    ghost function Remaining(): (bytes: seq<Byte>)
      requires Valid()
      reads this
    {
      Survivors(file, dead, currentOffset)
    }

    /** One read of the file into the buffer: a mapped file gives all it is asked for, any other at least one byte. */
    method ReadFile(buf: array<Byte>, at: nat, wanted: nat) returns (n: nat)
      requires currentOffset + wanted <= |file| && at + wanted <= buf.Length
      modifies buf
      ensures n <= wanted && (wanted > 0 ==> n > 0) && (mapped ==> n == wanted)
      ensures buf[at..at + n] == file[currentOffset..currentOffset + n]
      ensures buf[..at] == old(buf[..at]) && buf[at + n..] == old(buf[..])[at + n..]
    {
      n := wanted;
      if !mapped && wanted > 0 {
        n :| 1 <= n <= wanted;
      }
      forall i | 0 <= i < n { buf[at + i] := file[currentOffset + i]; }
    }

    /** Pop the dead range at the current offset. */
    method Skip()
      requires Valid() && stack != [] && currentOffset == stack[|stack| - 1].start
      modifies this
      ensures Valid() && Remaining() == old(Remaining()) && |stack| < |old(stack)|
    {
      SkipTop(file, dead, stack, currentOffset);
      currentOffset := currentOffset + Min(stack[|stack| - 1].size, |file| - currentOffset);
      stack := stack[..|stack| - 1];
    }

    /** Copy live bytes up to the next dead range, the end of the file or the end of the buffer. */
    method CopyLive(buf: array<Byte>, at: nat) returns (n: nat)
      requires Valid() && at < buf.Length && (stack != [] ==> currentOffset < stack[|stack| - 1].start)
      modifies this`currentOffset, buf
      ensures Valid() && at + n <= buf.Length
      ensures old(Remaining()) == buf[at..at + n] + Remaining()
      ensures buf[..at] == old(buf[..at]) && buf[at + n..] == old(buf[..])[at + n..]
      ensures n == 0 ==> Remaining() == []
    {
      var wanted := Min(buf.Length - at, Run(stack, currentOffset, |file|));
      n := ReadFile(buf, at, wanted);
      ReadRun(file, dead, stack, currentOffset, n);
      currentOffset := currentOffset + n;
    }

    /** One turn of the read loop: pop a dead range, or copy some live bytes to the buffer, or find none left. */
    method Advance(buf: array<Byte>, at: nat) returns (n: nat, atEnd: bool)
      requires Valid() && at < buf.Length
      modifies this, buf
      ensures Valid() && at + n <= buf.Length
      ensures old(Remaining()) == buf[at..at + n] + Remaining()
      ensures buf[..at] == old(buf[..at]) && buf[at + n..] == old(buf[..])[at + n..]
      ensures atEnd ==> n == 0 && Remaining() == []
      ensures !atEnd ==> n > 0 || |stack| < |old(stack)|
    {
      if stack != [] && currentOffset == stack[|stack| - 1].start {
        Skip();
        n, atEnd := 0, false;
        assert buf[at..at + n] == [];
        return;
      }
      n := CopyLive(buf, at);
      atEnd := n == 0;
    }

    /** Fill as much of the buffer as the live bytes allow, skipping the dead ranges. */
    method Read(buf: array<Byte>) returns (totalRead: nat)
      requires Valid()
      modifies this, buf
      ensures Valid()
      ensures totalRead == Min(buf.Length, |old(Remaining())|)
      ensures buf[..totalRead] == old(Remaining())[..totalRead]
      ensures buf[totalRead..] == old(buf[..])[totalRead..]
      ensures Remaining() == old(Remaining())[totalRead..]
    {
      ghost var all, before := Remaining(), buf[..];
      totalRead := 0;
      while totalRead < buf.Length
        modifies this, buf
        invariant Valid() && totalRead <= buf.Length
        invariant all == buf[..totalRead] + Remaining()
        invariant buf[totalRead..] == before[totalRead..]
        decreases buf.Length - totalRead, |stack|
      {
        ghost var filled, rest := buf[..totalRead], Remaining();
        var n, atEnd := Advance(buf, totalRead);
        assert buf[..totalRead + n] == filled + buf[totalRead..totalRead + n];
        JoinChunk(filled, buf[totalRead..totalRead + n], rest, Remaining());
        if atEnd {
          break;
        }
        totalRead := totalRead + n;
      }
    }

    /** Reads with buffers of any sizes, one after the other, deliver the live bytes in order and without loss. */
    method ReadWithBuffers(sizes: seq<nat>) returns (out: seq<Byte>)
      requires Valid()
      modifies this
      ensures Valid()
      ensures old(Remaining()) == out + Remaining()
      ensures |out| == Min(Total(sizes), |old(Remaining())|)
    {
      out := [];
      ghost var all := Remaining();
      for k := 0 to |sizes|
        modifies this
        invariant Valid() && all == out + Remaining()
        invariant |out| == Min(Total(sizes[..k]), |all|)
      {
        assert sizes[..k + 1][..k] == sizes[..k];
        ghost var rest := Remaining();
        var buf := new Byte[sizes[k]];
        var n := Read(buf);
        assert rest == buf[..n] + Remaining();
        out := out + buf[..n];
      }
      assert sizes[..|sizes|] == sizes;
    }
  }

  function Total(sizes: seq<nat>): (n: nat) {
    if sizes == [] then 0 else Total(sizes[..|sizes| - 1]) + sizes[|sizes| - 1]
  }
}
