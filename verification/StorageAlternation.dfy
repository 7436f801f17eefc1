/** Whether the interleaved order delivers small and large storages in turn, as its comment promises. */
module StorageAlternation {
  import opened StorageOrderer

  /** What the sort may leave: the indices of the storages, by capacity, ties in any order. */
  ghost predicate IsSort(capacities: seq<nat>, indices: seq<nat>) {
    IsOrder(indices, |capacities|) && SortedBy(capacities, indices)
  }

  /**
    What the ratio promises: the storage delivered at position `j`, which is `indices[j]` sent through the selector,
    has the capacity of the rank that the selector gives for `j`.
  */
  ghost predicate Alternates(capacities: seq<nat>, indices: seq<nat>, startRate: nat, endRate: nat)
    requires IsSort(capacities, indices) && startRate + endRate > 0
  {
    var n := |capacities|;
    forall j :: 0 <= j < n ==>
      var delivered, rank := Select(0, n, indices[j], startRate, endRate), Select(0, n, j, startRate, endRate);
      0 <= delivered < n && 0 <= rank < n && capacities[delivered] == capacities[indices[rank]]
  }

  ghost predicate AlternatesAtEveryRate(capacities: seq<nat>, indices: seq<nat>)
    requires IsSort(capacities, indices)
  {
    forall startRate: nat, endRate: nat :: startRate + endRate > 0 ==>
      Alternates(capacities, indices, startRate, endRate)
  }

  /** Whatever the sort makes of ties, and at every rate. */
  ghost predicate AlternationIsSure(capacities: seq<nat>) {
    forall indices: seq<nat> :: IsSort(capacities, indices) ==> AlternatesAtEveryRate(capacities, indices)
  }

  ghost predicate Climbs(s: seq<nat>) {
    forall i, j :: 0 <= i < j < |s| ==> s[i] < s[j]
  }

  ghost predicate Ascends(s: seq<nat>) {
    forall i, j :: 0 <= i < j < |s| ==> s[i] <= s[j]
  }

  ghost predicate AllEqual(s: seq<nat>) {
    forall i, j :: 0 <= i < j < |s| ==> s[i] == s[j]
  }

  // ----- Where it is sure -----

  /** With strictly increasing capacities the sort leaves every storage where it is. */
  lemma IncreasingAlternates(capacities: seq<nat>, indices: seq<nat>, startRate: nat, endRate: nat)
    requires Climbs(capacities) && IsSort(capacities, indices) && startRate + endRate > 0
    ensures Alternates(capacities, indices, startRate, endRate)
  {
    var n := |capacities|;
    forall i | 0 <= i < n ensures indices[i] == i { IncreasingIsIdentity(indices, i); }
    forall j | 0 <= j < n ensures 0 <= Select(0, n, j, startRate, endRate) < n {
      SelectInRange(0, n, j, startRate, endRate);
    }
  }

  lemma {:induction false} IncreasingIsIdentity(indices: seq<nat>, i: nat)
    requires IsOrder(indices, |indices|) && i < |indices| && Climbs(indices)
    ensures indices[i] == i
    decreases |indices| - i
  {
    AtLeast(indices, i);
    if i + 1 < |indices| { IncreasingIsIdentity(indices, i + 1); }
  }

  lemma {:induction false} AtLeast(indices: seq<nat>, i: nat)
    requires i < |indices| && Climbs(indices)
    ensures i <= indices[i]
  {
    if i > 0 { AtLeast(indices, i - 1); }
  }

  lemma EqualAlternates(capacities: seq<nat>, indices: seq<nat>, startRate: nat, endRate: nat)
    requires AllEqual(capacities) && IsSort(capacities, indices) && startRate + endRate > 0
    ensures Alternates(capacities, indices, startRate, endRate)
  {
    var n := |capacities|;
    forall j | 0 <= j < n
      ensures 0 <= Select(0, n, indices[j], startRate, endRate) < n && 0 <= Select(0, n, j, startRate, endRate) < n
    {
      SelectInRange(0, n, indices[j], startRate, endRate);
      SelectInRange(0, n, j, startRate, endRate);
    }
  }

  /** The selector keeps two values or swaps them, and so does the sort. */
  lemma TwoAlternate(capacities: seq<nat>, indices: seq<nat>, startRate: nat, endRate: nat)
    requires |capacities| <= 2 && IsSort(capacities, indices) && startRate + endRate > 0
    ensures Alternates(capacities, indices, startRate, endRate)
  {
    var n := |capacities|;
    forall j | 0 <= j < n ensures 0 <= Select(0, n, j, startRate, endRate) < n {
      SelectInRange(0, n, j, startRate, endRate);
    }
    if n == 2 { SelectIsInjective(0, 2, 0, 1, startRate, endRate); }
  }

  // ----- Where it is not -----

  /** The selector with at least as many turns from the end as there are values: all but the first `a` are reversed. */
  function Reversed(n: nat, a: nat, j: nat): (i: nat)
    requires j < n
    ensures i < n
  {
    if j < a then j else n - 1 + a - j
  }

  lemma SelectReverses(n: nat, a: nat, j: nat)
    requires j < n
    ensures Select(0, n, j, a, n) == Reversed(n, a, j)
  {
    assert j / (a + n) == 0 && j % (a + n) == j;
  }

  lemma AtReversal(capacities: seq<nat>, indices: seq<nat>, a: nat, j: nat)
    requires IsSort(capacities, indices) && AlternatesAtEveryRate(capacities, indices) && j < |capacities|
    ensures capacities[Reversed(|capacities|, a, indices[j])] == capacities[indices[Reversed(|capacities|, a, j)]]
  {
    assert Alternates(capacities, indices, a, |capacities|);
    SelectReverses(|capacities|, a, indices[j]);
    SelectReverses(|capacities|, a, j);
  }

  /** The place the sort gives to the last storage settles every capacity. */
  lemma LastSettles(capacities: seq<nat>, indices: seq<nat>, u: nat, a: nat)
    requires IsSort(capacities, indices) && AlternatesAtEveryRate(capacities, indices)
    requires u < |capacities| && indices[u] == |capacities| - 1 && a < |capacities|
    ensures capacities[a] == capacities[indices[Reversed(|capacities|, a, u)]]
  {
    AtReversal(capacities, indices, a, u);
  }

  /** If the sort puts another storage than the first in front, the last one is as small. */
  lemma MovedLowest(capacities: seq<nat>, indices: seq<nat>)
    requires IsSort(capacities, indices) && AlternatesAtEveryRate(capacities, indices)
    requires capacities != [] && indices[0] != 0
    ensures capacities[|capacities| - 1] == capacities[indices[0]]
  {
    AtReversal(capacities, indices, indices[0], 0);
  }

  lemma SwapTie(capacities: seq<nat>, indices: seq<nat>, i: nat, j: nat) returns (other: seq<nat>)
    requires IsSort(capacities, indices) && i < |indices| && j < |indices|
    requires capacities[indices[i]] == capacities[indices[j]]
    ensures IsSort(capacities, other) && other == indices[i := indices[j]][j := indices[i]]
  {
    other := indices[i := indices[j]][j := indices[i]];
    forall k, l | 0 <= k < l < |other| ensures capacities[other[k]] <= capacities[other[l]] {
      assert capacities[other[k]] == capacities[indices[k]] && capacities[other[l]] == capacities[indices[l]];
    }
  }

  /** If the sort moves the last storage, that one is as small as any. */
  lemma MovedLastIsLowest(capacities: seq<nat>, indices: seq<nat>, u: nat)
    requires AlternationIsSure(capacities) && IsSort(capacities, indices)
    requires u < |capacities| - 1 && indices[u] == |capacities| - 1
    ensures capacities[|capacities| - 1] == capacities[indices[0]]
  {
    var n := |capacities|;
    if indices[0] != 0 {
      MovedLowest(capacities, indices);
    } else {
      LastSettles(capacities, indices, u, 0);
      var other := SwapTie(capacities, indices, 0, n - 1 - u);
      MovedLowest(capacities, other);
    }
  }

  /** With the last storage in front, all but the first are as small as it. */
  lemma LastInFront(capacities: seq<nat>, indices: seq<nat>)
    requires IsSort(capacities, indices) && AlternatesAtEveryRate(capacities, indices)
    requires capacities != [] && indices[0] == |capacities| - 1
    ensures capacities[0] == capacities[indices[|capacities| - 1]]
    ensures forall a :: 0 < a < |capacities| ==> capacities[a] == capacities[|capacities| - 1]
  {
    LastSettles(capacities, indices, 0, 0);
    forall a | 0 < a < |capacities| ensures capacities[a] == capacities[|capacities| - 1] {
      LastSettles(capacities, indices, 0, a);
    }
  }

  /** And so is the first. */
  lemma LowestLastIsFlat(capacities: seq<nat>, indices: seq<nat>, u: nat)
    requires AlternationIsSure(capacities) && IsSort(capacities, indices) && |capacities| >= 3
    requires u < |capacities| && indices[u] == |capacities| - 1
    requires capacities[|capacities| - 1] == capacities[indices[0]]
    ensures AllEqual(capacities)
  {
    var n := |capacities|;
    var front := SwapTie(capacities, indices, 0, u);
    LastInFront(capacities, front);
    if front[n - 1] == 0 {
      assert front[1] != 0;
      var second := SwapTie(capacities, front, 0, 1);
      assert second[n - 1] == 0 && second[n - 2] != 0;
      LastSettles(capacities, second, 1, 0);
    }
  }

  /** So the sort leaves the last storage in place, unless all are equal. */
  lemma LastInPlace(capacities: seq<nat>, indices: seq<nat>)
    requires AlternationIsSure(capacities) && IsSort(capacities, indices) && |capacities| >= 3
    ensures AllEqual(capacities) || indices[|capacities| - 1] == |capacities| - 1
  {
    var n := |capacities|;
    var u := PlaceOf(indices, n - 1);
    if u < n - 1 {
      MovedLastIsLowest(capacities, indices, u);
      LowestLastIsFlat(capacities, indices, u);
    }
  }

  lemma AscendsOrFlat(capacities: seq<nat>)
    requires AlternationIsSure(capacities) && |capacities| >= 3
    ensures AllEqual(capacities) || Ascends(capacities)
  {
    var n := |capacities|;
    var indices := SortByCapacity(capacities, n);
    LastInPlace(capacities, indices);
    if indices[n - 1] == n - 1 {
      forall i, j | 0 <= i < j < n ensures capacities[i] <= capacities[j] {
        LastSettles(capacities, indices, n - 1, i);
        LastSettles(capacities, indices, n - 1, j);
      }
    }
  }

  /** The storages in the order they come in. */
  function InPlace(n: nat): (indices: seq<nat>)
    ensures IsOrder(indices, n)
  {
    seq(n, i => i)
  }

  lemma TopTieIsFlat(capacities: seq<nat>)
    requires AlternationIsSure(capacities) && Ascends(capacities) && |capacities| >= 3
    requires capacities[|capacities| - 2] == capacities[|capacities| - 1]
    ensures AllEqual(capacities)
  {
    var n := |capacities|;
    assert IsSort(capacities, InPlace(n));
    var other := SwapTie(capacities, InPlace(n), n - 2, n - 1);
    LastInPlace(capacities, other);
  }

  lemma TieIsFlat(capacities: seq<nat>, i: nat)
    requires AlternationIsSure(capacities) && Ascends(capacities) && |capacities| >= 3
    requires i + 1 < |capacities| && capacities[i] == capacities[i + 1]
    ensures AllEqual(capacities)
  {
    var n := |capacities|;
    if i + 1 < n - 1 {
      assert IsSort(capacities, InPlace(n));
      var other := SwapTie(capacities, InPlace(n), i, i + 1);
      AtReversal(capacities, other, i, i + 1);
    }
    TopTieIsFlat(capacities);
  }

  lemma ClimbsOrFlat(capacities: seq<nat>)
    requires AlternationIsSure(capacities) && |capacities| >= 3
    ensures Climbs(capacities) || AllEqual(capacities)
  {
    AscendsOrFlat(capacities);
    if Ascends(capacities) {
      forall i, j | 0 <= i < j < |capacities| ensures capacities[i] < capacities[j] || AllEqual(capacities) {
        assert capacities[i] <= capacities[i + 1] && (i + 1 < j ==> capacities[i + 1] <= capacities[j]);
        if capacities[i] == capacities[j] { TieIsFlat(capacities, i); }
      }
    }
  }

  /**
    The documented alternation is sure exactly for at most two storages, for strictly increasing capacities
    and for equal ones.
  */
  lemma AlternationIff(capacities: seq<nat>)
    ensures AlternationIsSure(capacities) <==> |capacities| <= 2 || Climbs(capacities) || AllEqual(capacities)
  {
    if |capacities| <= 2 || Climbs(capacities) || AllEqual(capacities) {
      forall indices: seq<nat>, startRate: nat, endRate: nat | IsSort(capacities, indices) && startRate + endRate > 0
        ensures Alternates(capacities, indices, startRate, endRate)
      {
        if |capacities| <= 2 {
          TwoAlternate(capacities, indices, startRate, endRate);
        } else if Climbs(capacities) {
          IncreasingAlternates(capacities, indices, startRate, endRate);
        } else {
          EqualAlternates(capacities, indices, startRate, endRate);
        }
      }
    } else if AlternationIsSure(capacities) {
      ClimbsOrFlat(capacities);
    }
  }

  /**
    Of storages with capacities 3, 1 and 2, one small in turn with one large, the first delivered is not the smallest.
  */
  method UnsortedDoesNotAlternate() returns (order: array<nat>, ghost indices: seq<nat>)
    ensures IsSort([3, 1, 2], indices)
    ensures order.Length == 3 && order[0] == 2 && !Alternates([3, 1, 2], indices, 1, 1)
  {
    var capacities := [3, 1, 2];
    order, indices := WithSmallToLargeRatio(capacities, 1, 1);
    SmallestFirst(indices);
    assert Select(0, 3, 1, 1, 1) == 2 && Select(0, 3, 0, 1, 1) == 0;
  }

  lemma SmallestFirst(indices: seq<nat>)
    requires IsSort([3, 1, 2], indices)
    ensures indices[0] == 1
  {
    var k := PlaceOf(indices, 1);
  }
}
