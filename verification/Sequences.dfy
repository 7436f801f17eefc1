/** Facts about sequences that several models need. */
module Sequences {
  function Without<T>(s: seq<T>, i: nat): (rest: seq<T>)
    requires i < |s|
  {
    s[..i] + s[i + 1..]
  }

  lemma WithoutLosesOne<T>(s: seq<T>, i: nat)
    requires i < |s|
    ensures multiset(Without(s, i)) == multiset(s) - multiset{s[i]}
  {
    assert s == s[..i] + [s[i]] + s[i + 1..];
    assert multiset(s) == multiset(s[..i]) + multiset{s[i]} + multiset(s[i + 1..]);
  }

  lemma LastInMultiset<T>(s: seq<T>)
    requires s != []
    ensures multiset(s) == multiset(s[..|s| - 1]) + multiset{s[|s| - 1]}
  {
    assert s == s[..|s| - 1] + [s[|s| - 1]];
  }

  lemma SliceHead<T>(s: seq<T>, a: nat, b: nat)
    requires a < b <= |s|
    ensures s[a..b] == [s[a]] + s[a + 1..b]
  {
  }

  lemma PrefixNext<T>(s: seq<T>, k: nat)
    requires k < |s|
    ensures s[..k + 1] == s[..k] + [s[k]] && s[0..k + 1] == s[..k + 1] && [s[k]][..0] == []
  {
  }

  lemma InMultiset<T>(s: seq<T>, x: T) returns (i: nat)
    requires x in multiset(s)
    ensures i < |s| && s[i] == x
  {
    i :| 0 <= i < |s| && s[i] == x;
  }

  /** Take the same element out of two permutations of each other, the last one of the first. */
  lemma MatchLast<T>(s: seq<T>, other: seq<T>) returns (i: nat)
    requires s != [] && multiset(s) == multiset(other)
    ensures i < |other| && other[i] == s[|s| - 1]
    ensures multiset(s[..|s| - 1]) == multiset(Without(other, i))
  {
    var n := |s| - 1;
    assert s[n] in multiset(s);
    i := InMultiset(other, s[n]);
    WithoutLosesOne(other, i);
    WithoutLosesOne(s, n);
    assert Without(s, n) == s[..n];
  }

  ghost predicate Distinct<T>(s: seq<T>) {
    forall i, j :: 0 <= i < j < |s| ==> s[i] != s[j]
  }

  lemma {:induction false} DistinctCountsOnce<T>(s: seq<T>, x: T)
    requires Distinct(s)
    ensures multiset(s)[x] <= 1
  {
    if s != [] {
      var n := |s| - 1;
      DistinctCountsOnce(s[..n], x);
      WithoutLosesOne(s, n);
      assert Without(s, n) == s[..n];
      assert s[n] !in s[..n];
    }
  }

  lemma RepeatCountsTwice<T>(s: seq<T>, i: nat, j: nat)
    requires i < j < |s|
    ensures s[i] == s[j] ==> multiset(s)[s[i]] >= 2
  {
    WithoutLosesOne(s, j);
    assert Without(s, j)[i] == s[i];
    assert s[i] in multiset(Without(s, j));
  }

  /** A permutation of a distinct sequence is distinct. */
  lemma PermutationIsDistinct<T>(s: seq<T>, other: seq<T>)
    requires Distinct(s) && multiset(s) == multiset(other)
    ensures Distinct(other)
  {
    forall i, j | 0 <= i < j < |other| ensures other[i] != other[j] {
      DistinctCountsOnce(s, other[i]);
      RepeatCountsTwice(other, i, j);
    }
  }

  lemma SameElements<T>(s: seq<T>, other: seq<T>)
    requires multiset(s) == multiset(other)
    ensures forall x :: x in s <==> x in other
  {
    forall x ensures x in s <==> x in other {
      assert x in s <==> x in multiset(s);
      assert x in other <==> x in multiset(other);
    }
  }

  /** Distinct elements of a set are no more than the set has. */
  lemma {:induction false} DistinctFits<T>(s: seq<T>, within: set<T>)
    requires Distinct(s) && forall i :: 0 <= i < |s| ==> s[i] in within
    ensures |s| <= |within|
  {
    if s != [] {
      var n := |s| - 1;
      forall i | 0 <= i < n ensures s[..n][i] in within - {s[n]} { assert s[i] != s[n]; }
      DistinctFits(s[..n], within - {s[n]});
    }
  }

  lemma DistinctConcat<T>(a: seq<T>, b: seq<T>)
    requires Distinct(a) && Distinct(b) && forall x :: x in b ==> x !in a
    ensures Distinct(a + b)
  {
    forall i, j | 0 <= i < j < |a + b| ensures (a + b)[i] != (a + b)[j] {
      if i < |a| <= j { assert (a + b)[i] in a && (a + b)[j] in b; }
    }
  }

  function Members<T>(s: seq<T>): (all: set<T>) {
    set x | x in s
  }

  lemma MembersOfPrefix<T>(s: seq<T>, i: nat)
    requires Distinct(s) && i < |s|
    ensures Members(s[..i + 1]) == Members(s[..i]) + {s[i]} && s[i] !in Members(s[..i])
  {
    assert s[..i + 1] == s[..i] + [s[i]];
  }

  function Flatten<T>(parts: seq<seq<T>>): (all: seq<T>) {
    if parts == [] then [] else Flatten(parts[..|parts| - 1]) + parts[|parts| - 1]
  }

  lemma {:induction false} FlattenPrefix<T>(parts: seq<seq<T>>, k: nat)
    requires k <= |parts|
    ensures Flatten(parts) == Flatten(parts[..k]) + Flatten(parts[k..])
  {
    if k == |parts| {
      assert parts[..k] == parts && parts[k..] == [];
    } else {
      var n := |parts| - 1;
      assert parts[..n][..k] == parts[..k] && parts[k..][..n - k] == parts[..n][k..];
      FlattenPrefix(parts[..n], k);
    }
  }

  lemma FlattenNext<T>(parts: seq<seq<T>>, t: nat)
    requires t < |parts|
    ensures Flatten(parts[..t + 1]) == Flatten(parts[..t]) + parts[t] && Flatten(parts[..t + 1]) <= Flatten(parts)
  {
    FlattenPrefix(parts, t + 1);
    assert parts[..t + 1][..t] == parts[..t];
  }

  lemma {:induction false} FlattenNothing<T>(n: nat)
    ensures Flatten(seq<seq<T>>(n, _ => [])) == []
  {
    if n > 0 {
      FlattenNothing<T>(n - 1);
      assert seq<seq<T>>(n, _ => [])[..n - 1] == seq<seq<T>>(n - 1, _ => []);
    }
  }

  /** One more element in a part is one more element in all. */
  lemma {:induction false} FlattenMore<T>(parts: seq<seq<T>>, t: nat, x: T)
    requires t < |parts|
    ensures multiset(Flatten(parts[t := parts[t] + [x]])) == multiset(Flatten(parts)) + multiset{x}
  {
    var n := |parts| - 1;
    var more := parts[t := parts[t] + [x]];
    if t < n {
      FlattenMore(parts[..n], t, x);
      assert more[..n] == parts[..n][t := parts[t] + [x]];
    } else {
      assert more[..n] == parts[..n];
    }
  }
}
