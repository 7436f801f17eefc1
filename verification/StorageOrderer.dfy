/** Orders in which storages are visited, and the consumers that share one. */
module StorageOrderer {
  import opened Types
  import opened Sequences
  import opened StartupScan

  // ----- Selecting alternately from the start and the end of a range -----

  /**
    The `nth` value of the range `[lo, hi)`, taken `startRate` times from its start, then `endRate` times from its end,
    and so on.
  */
  function Select(lo: nat, hi: nat, nth: nat, startRate: nat, endRate: nat): (value: int)
    requires lo <= hi && startRate + endRate > 0
  {
    var cycle := startRate + endRate;
    SelectInCycle(lo, hi, nth / cycle, nth % cycle, startRate, endRate)
  }

  /** The value for turn `cycleIndex` of cycle `cycleNum`. */
  function SelectInCycle(lo: nat, hi: nat, cycleNum: nat, cycleIndex: nat, startRate: nat, endRate: nat): (value: int)
    requires lo <= hi
  {
    var index :=
      if cycleIndex < startRate then cycleNum * startRate + cycleIndex
      else
        var endIndex := cycleNum * endRate + cycleIndex - startRate;
        hi - lo - endIndex - 1;
    lo + index
  }

  /** How many of the first `n` turns took from the start, when the first `startRate` turns of each cycle do. */
  ghost function Starts(n: nat, startRate: nat, cycle: nat): (taken: nat)
    requires cycle > 0
    ensures taken <= n
  {
    if n == 0 then 0 else Starts(n - 1, startRate, cycle) + if (n - 1) % cycle < startRate then 1 else 0
  }

  lemma MulGrows(q: int, d: int, c: nat)
    requires q < d
    ensures q * c + c <= d * c
  {
    assert d * c == q * c + c + (d - q - 1) * c;
  }

  lemma SplitIsUnique(c: nat, q: int, r: nat, d: int, m: nat)
    requires r < c && m < c && q * c + r == d * c + m
    ensures q == d && r == m
  {
    if q < d { MulGrows(q, d, c); }
    if d < q { MulGrows(d, q, c); }
  }

  /** The next number has the next remainder, or begins the next multiple. */
  lemma DivNext(k: nat, c: nat)
    requires c > 0
    ensures if k % c + 1 < c then (k + 1) / c == k / c && (k + 1) % c == k % c + 1
            else (k + 1) / c == k / c + 1 && (k + 1) % c == 0
  {
    var q, r := k / c, k % c;
    assert q * c + r == k && (k + 1) / c * c + (k + 1) % c == k + 1;
    if r + 1 < c {
      SplitIsUnique(c, q, r + 1, (k + 1) / c, (k + 1) % c);
    } else {
      assert (q + 1) * c == q * c + c;
      SplitIsUnique(c, q + 1, 0, (k + 1) / c, (k + 1) % c);
    }
  }

  /** The turns from the start in `cycles` whole cycles and `more` further turns. */
  ghost function StartsIn(cycles: nat, more: nat, startRate: nat): (n: nat) {
    if cycles == 0 then Min(more, startRate) else startRate + StartsIn(cycles - 1, more, startRate)
  }

  lemma {:induction false} StartsInProduct(cycles: nat, more: nat, startRate: nat)
    ensures StartsIn(cycles, more, startRate) == cycles * startRate + Min(more, startRate)
  {
    if cycles > 0 {
      StartsInProduct(cycles - 1, more, startRate);
      assert cycles * startRate == (cycles - 1) * startRate + startRate;
    }
  }

  lemma {:induction false} StartsInNext(q: nat, r: nat, a: nat, cycle: nat)
    requires r < cycle && a <= cycle
    ensures r + 1 < cycle ==> StartsIn(q, r + 1, a) == StartsIn(q, r, a) + if r < a then 1 else 0
    ensures r + 1 == cycle ==> StartsIn(q + 1, 0, a) == StartsIn(q, r, a) + if r < a then 1 else 0
  {
    if q > 0 { StartsInNext(q - 1, r, a, cycle); }
  }

  lemma {:induction false} StartsClosed(n: nat, startRate: nat, cycle: nat)
    requires startRate <= cycle && cycle > 0
    ensures Starts(n, startRate, cycle) == StartsIn(n / cycle, n % cycle, startRate)
  {
    if n > 0 {
      StartsClosed(n - 1, startRate, cycle);
      DivNext(n - 1, cycle);
      StartsInNext((n - 1) / cycle, (n - 1) % cycle, startRate, cycle);
    }
  }

  /** What turn `n`, turn `r` of cycle `q`, gets, by the turns before it. */
  lemma SelectCountsTurns(lo: nat, hi: nat, q: nat, r: nat, startRate: nat, endRate: nat, n: nat)
    requires lo <= hi && r < startRate + endRate && n == q * (startRate + endRate) + r
    ensures SelectInCycle(lo, hi, q, r, startRate, endRate) ==
            if r < startRate then lo + StartsIn(q, r, startRate) else hi - 1 - (n - StartsIn(q, r, startRate))
  {
    StartsInProduct(q, r, startRate);
    assert q * (startRate + endRate) == q * startRate + q * endRate;
  }

  lemma DivMod(n: nat, cycle: nat)
    requires cycle > 0
    ensures n == n / cycle * cycle + n % cycle
  {
  }

  lemma SelectOfCycle(lo: nat, hi: nat, nth: nat, startRate: nat, endRate: nat, cycle: nat)
    requires lo <= hi && cycle == startRate + endRate > 0
    ensures var taken := Starts(nth, startRate, cycle);
            SelectInCycle(lo, hi, nth / cycle, nth % cycle, startRate, endRate) ==
            if nth % cycle < startRate then lo + taken else hi - 1 - (nth - taken)
  {
    StartsClosed(nth, startRate, cycle);
    DivMod(nth, cycle);
    SelectCountsTurns(lo, hi, nth / cycle, nth % cycle, startRate, endRate, nth);
  }

  /** The selector is a queue taken from both ends: a turn gets the lowest or the highest value no earlier turn took. */
  lemma SelectTakesEnds(lo: nat, hi: nat, nth: nat, startRate: nat, endRate: nat)
    requires lo <= hi && startRate + endRate > 0
    ensures var taken := Starts(nth, startRate, startRate + endRate);
            Select(lo, hi, nth, startRate, endRate) ==
            if nth % (startRate + endRate) < startRate then lo + taken else hi - 1 - (nth - taken)
  {
    SelectOfCycle(lo, hi, nth, startRate, endRate, startRate + endRate);
  }

  lemma {:induction false} StartsGrow(m: nat, n: nat, startRate: nat, cycle: nat)
    requires m <= n && cycle > 0
    ensures Starts(m, startRate, cycle) <= Starts(n, startRate, cycle) <= Starts(m, startRate, cycle) + (n - m)
    decreases n - m
  {
    if m < n { StartsGrow(m, n - 1, startRate, cycle); }
  }

  lemma SelectInRange(lo: nat, hi: nat, nth: nat, startRate: nat, endRate: nat)
    requires lo <= hi && nth < hi - lo && startRate + endRate > 0
    ensures lo <= Select(lo, hi, nth, startRate, endRate) < hi
  {
    SelectTakesEnds(lo, hi, nth, startRate, endRate);
  }

  /** Different turns get different values. */
  lemma SelectIsInjective(lo: nat, hi: nat, m: nat, n: nat, startRate: nat, endRate: nat)
    requires lo <= hi && m < n < hi - lo && startRate + endRate > 0
    ensures Select(lo, hi, m, startRate, endRate) != Select(lo, hi, n, startRate, endRate)
  {
    SelectTakesEnds(lo, hi, m, startRate, endRate);
    SelectTakesEnds(lo, hi, n, startRate, endRate);
    StartsGrow(m + 1, n, startRate, startRate + endRate);
  }

  /** Every value is some turn's. */
  lemma SelectIsOnto(lo: nat, hi: nat, value: nat, startRate: nat, endRate: nat) returns (nth: nat)
    requires lo <= value < hi && startRate + endRate > 0
    ensures nth < hi - lo && Select(lo, hi, nth, startRate, endRate) == value
  {
    var n, cycle := hi - lo, startRate + endRate;
    if value - lo < Starts(n, startRate, cycle) {
      nth := TurnOfStart(n, value - lo, startRate, cycle);
    } else {
      nth := TurnOfEnd(n, hi - 1 - value, startRate, cycle);
    }
    SelectTakesEnds(lo, hi, nth, startRate, endRate);
  }

  lemma {:induction false} TurnOfStart(n: nat, i: nat, startRate: nat, cycle: nat) returns (turn: nat)
    requires cycle > 0 && i < Starts(n, startRate, cycle)
    ensures turn < n && turn % cycle < startRate && Starts(turn, startRate, cycle) == i
  {
    if i < Starts(n - 1, startRate, cycle) { turn := TurnOfStart(n - 1, i, startRate, cycle); } else { turn := n - 1; }
  }

  lemma {:induction false} TurnOfEnd(n: nat, i: nat, startRate: nat, cycle: nat) returns (turn: nat)
    requires cycle > 0 && i < n - Starts(n, startRate, cycle)
    ensures turn < n && turn % cycle >= startRate && turn - Starts(turn, startRate, cycle) == i
  {
    if i < n - 1 - Starts(n - 1, startRate, cycle) {
      turn := TurnOfEnd(n - 1, i, startRate, cycle);
    } else {
      turn := n - 1;
    }
  }

  // ----- Orders -----

  /** Every index below `n` once. */
  ghost predicate IsOrder(indices: seq<nat>, n: nat) {
    |indices| == n && Distinct(indices) && forall i :: 0 <= i < n ==> indices[i] < n
  }

  /** Mapping a permutation of the indices through the selector gives a permutation again. */
  lemma SelectedIsOrder(indices: seq<nat>, selected: seq<nat>, startRate: nat, endRate: nat)
    requires startRate + endRate > 0 && IsOrder(indices, |indices|) && |selected| == |indices|
    requires forall i :: 0 <= i < |indices| ==> selected[i] == Select(0, |indices|, indices[i], startRate, endRate)
    ensures IsOrder(selected, |indices|)
  {
    var n := |indices|;
    forall i | 0 <= i < n ensures selected[i] < n { SelectInRange(0, n, indices[i], startRate, endRate); }
    forall i, j | 0 <= i < j < n ensures selected[i] != selected[j] {
      var a, b := indices[i], indices[j];
      SelectIsInjective(0, n, if a < b then a else b, if a < b then b else a, startRate, endRate);
    }
  }

  /** The indices below `n` sorted by the capacities of their storages; the sort may order ties either way. */
  function SortByCapacity(capacities: seq<nat>, n: nat): (indices: seq<nat>)
    requires n <= |capacities|
    ensures IsOrder(indices, n) && SortedBy(capacities, indices)
  {
    if n == 0 then [] else InsertByCapacity(capacities, SortByCapacity(capacities, n - 1), n - 1, n - 1)
  }

  ghost predicate SortedBy(capacities: seq<nat>, indices: seq<nat>) {
    && (forall i :: 0 <= i < |indices| ==> indices[i] < |capacities|)
    && (forall i, j :: 0 <= i < j < |indices| ==> capacities[indices[i]] <= capacities[indices[j]])
  }

  /** Put index `n` at position `at` or before, after all indices of no more capacity. */
  function InsertByCapacity(capacities: seq<nat>, indices: seq<nat>, n: nat, at: nat): (more: seq<nat>)
    requires at <= n < |capacities| && IsOrder(indices, n) && SortedBy(capacities, indices)
    requires forall i :: at <= i < n ==> capacities[n] < capacities[indices[i]]
    ensures IsOrder(more, n + 1) && SortedBy(capacities, more)
  {
    if at > 0 && capacities[indices[at - 1]] > capacities[n] then InsertByCapacity(capacities, indices, n, at - 1)
    else
      var more := indices[..at] + [n] + indices[at..];
      InsertedIsOrder(indices, at, more);
      InsertedIsSorted(capacities, indices, at, n, more);
      more
  }

  lemma InsertedIsOrder(indices: seq<nat>, at: nat, more: seq<nat>)
    requires at <= |indices| && IsOrder(indices, |indices|) && more == indices[..at] + [|indices|] + indices[at..]
    ensures IsOrder(more, |indices| + 1)
  {
    forall i, j | 0 <= i < j < |more| ensures more[i] != more[j] {
      assert i != at ==> more[i] == indices[if i < at then i else i - 1];
      assert j != at ==> more[j] == indices[if j < at then j else j - 1];
    }
  }

  lemma InsertedIsSorted(capacities: seq<nat>, indices: seq<nat>, at: nat, n: nat, more: seq<nat>)
    requires n < |capacities| && at <= |indices| && SortedBy(capacities, indices)
    requires more == indices[..at] + [n] + indices[at..]
    requires at > 0 ==> capacities[indices[at - 1]] <= capacities[n]
    requires forall i :: at <= i < |indices| ==> capacities[n] < capacities[indices[i]]
    ensures SortedBy(capacities, more)
  {
    forall i | 0 <= i < at ensures capacities[indices[i]] <= capacities[n] {
      assert i < at - 1 ==> capacities[indices[i]] <= capacities[indices[at - 1]];
    }
    forall i, j | 0 <= i < j < |more| ensures capacities[more[i]] <= capacities[more[j]] {
      assert i != at ==> more[i] == indices[if i < at then i else i - 1];
      assert j != at ==> more[j] == indices[if j < at then j else j - 1];
    }
  }

  /** Interleave storages: sort their indices by capacity, then send each index through the selector. */
  method WithSmallToLargeRatio(capacities: seq<nat>, startRate: nat, endRate: nat)
    returns (order: array<nat>, ghost indices: seq<nat>)
    requires startRate + endRate > 0
    ensures IsOrder(order[..], |capacities|)
    ensures IsOrder(indices, |capacities|) && SortedBy(capacities, indices)
    ensures forall i :: 0 <= i < |capacities| ==> order[i] == Select(0, |capacities|, indices[i], startRate, endRate)
  {
    var sorted := SortByCapacity(capacities, |capacities|);
    indices := sorted;
    var n := |sorted|;
    order := new nat[n](i requires 0 <= i < n => sorted[i]);
    for k := 0 to n
      invariant forall i :: k <= i < n ==> order[i] == indices[i]
      invariant forall i :: 0 <= i < k ==> order[i] == Select(0, n, indices[i], startRate, endRate)
    {
      SelectInRange(0, n, indices[k], startRate, endRate);
      order[k] := Select(0, n, order[k], startRate, endRate);
    }
    SelectedIsOrder(indices, order[..], startRate, endRate);
  }

  // ----- Consumers -----

  class ConcurrentConsumer<T> {
    const order: seq<T>
    var currentIndex: nat

    constructor (order: seq<T>)
      ensures this.order == order && currentIndex == 0
    {
      this.order, currentIndex := order, 0;
    }

    /** Take the next entry: one atomic increment of the shared position. */
    method Next() returns (entry: Option<T>)
      modifies this
      ensures currentIndex == old(currentIndex) + 1
      ensures entry == if old(currentIndex) < |order| then Some(order[old(currentIndex)]) else None
    {
      var index := currentIndex;
      currentIndex := currentIndex + 1;
      entry := if index < |order| then Some(order[index]) else None;
    }

    /** Threads take entries as the schedule says, each keeping what it gets. */
    method Consume(schedule: seq<nat>, threads: nat) returns (parts: seq<seq<T>>)
      requires currentIndex == 0 && forall i :: 0 <= i < |schedule| ==> schedule[i] < threads
      modifies this
      ensures |parts| == threads && multiset(Flatten(parts)) == multiset(order[..Min(|schedule|, |order|)])
    {
      parts := seq(threads, _ => []);
      FlattenNothing<T>(threads);
      for i := 0 to |schedule|
        invariant currentIndex == i && |parts| == threads
        invariant multiset(Flatten(parts)) == multiset(order[..Min(i, |order|)])
      {
        var entry := Next();
        var t := schedule[i];
        if entry.Some? {
          NextDelivered(parts, t, order, i);
          parts := parts[t := parts[t] + [entry.value]];
        }
      }
    }
  }

  lemma NextDelivered<T>(parts: seq<seq<T>>, t: nat, order: seq<T>, i: nat)
    requires t < |parts| && i < |order| && multiset(Flatten(parts)) == multiset(order[..i])
    ensures multiset(Flatten(parts[t := parts[t] + [order[i]]])) == multiset(order[..i + 1])
  {
    FlattenMore(parts, t, order[i]);
    assert order[..i + 1] == order[..i] + [order[i]];
  }

  /** Once the threads have drained the storages, each storage went to exactly one thread, once. */
  method DealStorages(storages: seq<Storage>, order: seq<nat>, schedule: seq<nat>, threads: nat)
    returns (parts: seq<seq<Storage>>)
    requires IsOrder(order, |storages|) && |schedule| >= |storages|
    requires forall i :: 0 <= i < |schedule| ==> schedule[i] < threads
    ensures |parts| == threads && Dealt(parts, storages)
  {
    var ordered := seq(|order|, i requires 0 <= i < |order| => storages[order[i]]);
    var consumer := new ConcurrentConsumer<Storage>(ordered);
    parts := consumer.Consume(schedule, threads);
    assert ordered[..|ordered|] == ordered;
    ReorderedIsPermutation(storages, order, ordered);
  }

  /** Listing a sequence by an order of its indices permutes it. */
  lemma {:induction false} ReorderedIsPermutation<T>(s: seq<T>, order: seq<nat>, ordered: seq<T>)
    requires IsOrder(order, |s|) && |ordered| == |s| && forall i :: 0 <= i < |s| ==> ordered[i] == s[order[i]]
    ensures multiset(ordered) == multiset(s)
  {
    if s != [] {
      var n := |s| - 1;
      var k := PlaceOf(order, n);
      WithoutLast(order, k);
      assert forall i :: 0 <= i < n ==> Without(ordered, k)[i] == s[..n][Without(order, k)[i]];
      ReorderedIsPermutation(s[..n], Without(order, k), Without(ordered, k));
      WithoutLosesOne(ordered, k);
      LastInMultiset(s);
      assert ordered[k] in multiset(ordered);
    }
  }

  lemma WithoutLast(order: seq<nat>, k: nat)
    requires IsOrder(order, |order|) && k < |order| && order[k] == |order| - 1
    ensures IsOrder(Without(order, k), |order| - 1)
  {
    var rest := Without(order, k);
    forall i | 0 <= i < |rest| ensures rest[i] == order[if i < k then i else i + 1] < |order| - 1 {}
  }

  /** Every index occurs in an order. */
  lemma PlaceOf(order: seq<nat>, v: nat) returns (k: nat)
    requires IsOrder(order, |order|) && v < |order|
    ensures k < |order| && order[k] == v
  {
    if v !in order {
      MissingLeavesRoom(order, |order|, v);
    }
    k :| 0 <= k < |order| && order[k] == v;
  }

  /** Distinct numbers below `n` without `v` are fewer than `n`. */
  lemma MissingLeavesRoom(s: seq<nat>, n: nat, v: nat)
    requires Distinct(s) && v < n && v !in s && forall i :: 0 <= i < |s| ==> s[i] < n
    ensures |s| < n
  {
    forall i | 0 <= i < |s| ensures s[i] in Below(n) - {v} { assert s[i] in s; }
    DistinctFits(s, Below(n) - {v});
  }

  function Below(n: nat): (numbers: set<nat>)
    ensures |numbers| == n && forall i :: i in numbers <==> 0 <= i < n
  {
    if n == 0 then {} else Below(n - 1) + {n - 1}
  }
}
