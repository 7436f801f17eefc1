/**
  The lattice hash: 1024 sixteen-bit elements with wrapping arithmetic, and sums of what account versions contribute.
*/
module LatticeHash {
  import opened Types

  const NUM_ELEMENTS: nat := 1024
  const MODULUS: int := 65536

  newtype Element = x: int | 0 <= x < 65536

  type LtHash = h: seq<Element> | |h| == NUM_ELEMENTS witness seq(NUM_ELEMENTS, _ => 0)

  function Identity(): (h: LtHash) {
    seq(NUM_ELEMENTS, _ => 0)
  }

  function WrappingAdd(a: Element, b: Element): (c: Element) {
    ((a as int + b as int) % MODULUS) as Element
  }

  function WrappingSub(a: Element, b: Element): (c: Element) {
    ((a as int - b as int) % MODULUS) as Element
  }

  function Add(a: LtHash, b: LtHash): (c: LtHash) {
    seq(NUM_ELEMENTS, i requires 0 <= i < NUM_ELEMENTS => WrappingAdd(a[i], b[i]))
  }

  function Sub(a: LtHash, b: LtHash): (c: LtHash) {
    seq(NUM_ELEMENTS, i requires 0 <= i < NUM_ELEMENTS => WrappingSub(a[i], b[i]))
  }

  /** Mix `other` into the hash held in `elements`, element by element. */
  method MixIn(elements: array<Element>, other: LtHash)
    requires elements.Length == NUM_ELEMENTS
    modifies elements
    ensures elements[..] == Add(old(elements[..]), other)
    ensures forall i :: 0 <= i < 1024 ==>
              elements[i] as int == (old(elements[i]) as int + other[i] as int) % 65536
  {
    for i := 0 to NUM_ELEMENTS
      invariant forall j :: 0 <= j < i ==> elements[j] == WrappingAdd(old(elements[j]), other[j])
      invariant forall j :: i <= j < NUM_ELEMENTS ==> elements[j] == old(elements[j])
    {
      elements[i] := WrappingAdd(elements[i], other[i]);
    }
  }

  /** Mix `other` out again: what `MixIn` did is undone. */
  method MixOut(elements: array<Element>, other: LtHash)
    requires elements.Length == NUM_ELEMENTS
    modifies elements
    ensures elements[..] == Sub(old(elements[..]), other)
    ensures forall i :: 0 <= i < 1024 ==>
              elements[i] as int == (old(elements[i]) as int - other[i] as int) % 65536
    ensures forall before: LtHash :: old(elements[..]) == Add(before, other) ==> elements[..] == before
  {
    for i := 0 to NUM_ELEMENTS
      invariant forall j :: 0 <= j < i ==> elements[j] == WrappingSub(old(elements[j]), other[j])
      invariant forall j :: i <= j < NUM_ELEMENTS ==> elements[j] == old(elements[j])
    {
      elements[i] := WrappingSub(elements[i], other[i]);
    }
    assert elements[..] == Sub(old(elements[..]), other);
    forall before: LtHash | old(elements[..]) == Add(before, other) ensures elements[..] == before {
      SubUndoesAdd(before, other);
    }
  }

  lemma AddCommutes(a: LtHash, b: LtHash)
    ensures Add(a, b) == Add(b, a)
  {
    assert forall i :: 0 <= i < NUM_ELEMENTS ==> Add(a, b)[i] == Add(b, a)[i];
  }

  lemma WrappingAssociates(a: Element, b: Element, c: Element)
    ensures WrappingAdd(WrappingAdd(a, b), c) == WrappingAdd(a, WrappingAdd(b, c))
  {
  }

  lemma AddAssociates(a: LtHash, b: LtHash, c: LtHash)
    ensures Add(Add(a, b), c) == Add(a, Add(b, c))
  {
    forall i | 0 <= i < NUM_ELEMENTS ensures Add(Add(a, b), c)[i] == Add(a, Add(b, c))[i] {
      WrappingAssociates(a[i], b[i], c[i]);
    }
  }

  lemma AddIdentity(a: LtHash)
    ensures Add(a, Identity()) == a
  {
    assert forall i :: 0 <= i < NUM_ELEMENTS ==> Add(a, Identity())[i] == a[i];
  }

  lemma WrappingUndoes(a: Element, b: Element)
    ensures WrappingSub(WrappingAdd(a, b), b) == a
  {
  }

  lemma SubUndoesAdd(a: LtHash, b: LtHash)
    ensures Sub(Add(a, b), b) == a
  {
    forall i | 0 <= i < NUM_ELEMENTS ensures Sub(Add(a, b), b)[i] == a[i] {
      WrappingUndoes(a[i], b[i]);
    }
  }

  // ----- Tallies -----

  /** What account versions contribute: their hashes, the data of the funded ones, and how many they are. */
  datatype Tally = Tally(hash: LtHash, dataLen: int, count: int)

  function Nothing(): (t: Tally) {
    Tally(Identity(), 0, 0)
  }

  function Plus(a: Tally, b: Tally): (c: Tally) {
    Tally(Add(a.hash, b.hash), a.dataLen + b.dataLen, a.count + b.count)
  }

  function Minus(a: Tally, b: Tally): (c: Tally) {
    Tally(Sub(a.hash, b.hash), a.dataLen - b.dataLen, a.count - b.count)
  }

  lemma PlusSwaps(a: Tally, b: Tally, c: Tally)
    ensures Plus(Plus(a, b), c) == Plus(Plus(a, c), b)
  {
    AddAssociates(a.hash, b.hash, c.hash);
    AddAssociates(a.hash, c.hash, b.hash);
    AddCommutes(b.hash, c.hash);
  }

  lemma PlusAssociates(a: Tally, b: Tally, c: Tally)
    ensures Plus(Plus(a, b), c) == Plus(a, Plus(b, c))
  {
    AddAssociates(a.hash, b.hash, c.hash);
  }

  lemma PlusNothing(a: Tally)
    ensures Plus(a, Nothing()) == a
  {
    AddIdentity(a.hash);
  }

  /** The sum over a set of versions. */
  ghost function Sum(values: map<Version, Tally>, s: set<Version>): (t: Tally)
    requires s <= values.Keys
  {
    if s == {} then Nothing()
    else
      var v: Version :| v in s;
      Plus(Sum(values, s - {v}), values[v])
  }

  /** The sum does not depend on the order in which versions are taken. */
  lemma {:induction false} SumTakeOut(values: map<Version, Tally>, s: set<Version>, v: Version)
    requires s <= values.Keys && v in s
    ensures Sum(values, s) == Plus(Sum(values, s - {v}), values[v])
    decreases |s|
  {
    var w: Version :| w in s && Sum(values, s) == Plus(Sum(values, s - {w}), values[w]);
    if w != v {
      SumTakeOut(values, s - {w}, v);
      SumTakeOut(values, s - {v}, w);
      assert s - {w} - {v} == s - {v} - {w};
      PlusSwaps(Sum(values, s - {w} - {v}), values[v], values[w]);
    }
  }

  lemma SumPutIn(values: map<Version, Tally>, s: set<Version>, v: Version)
    requires s <= values.Keys && v in values && v !in s
    ensures Sum(values, s + {v}) == Plus(Sum(values, s), values[v])
  {
    SumTakeOut(values, s + {v}, v);
    assert s + {v} - {v} == s;
  }

  lemma {:induction false} SumUnion(values: map<Version, Tally>, a: set<Version>, b: set<Version>)
    requires a <= values.Keys && b <= values.Keys && a !! b
    ensures Sum(values, a + b) == Plus(Sum(values, a), Sum(values, b))
    decreases |b|
  {
    if b == {} {
      assert a + b == a;
      PlusNothing(Sum(values, a));
    } else {
      var v: Version :| v in b;
      var rest := b - {v};
      SumUnion(values, a, rest);
      SumTakeOut(values, b, v);
      SumPutIn(values, a + rest, v);
      assert a + rest + {v} == a + b;
      PlusAssociates(Sum(values, a), Sum(values, rest), values[v]);
    }
  }

  /** Taking a part's sum out of the whole leaves the sum of the rest. */
  lemma SumDifference(values: map<Version, Tally>, whole: set<Version>, part: set<Version>)
    requires part <= whole <= values.Keys
    ensures Minus(Sum(values, whole), Sum(values, part)) == Sum(values, whole - part)
  {
    SumUnion(values, whole - part, part);
    assert whole - part + part == whole;
    SubUndoesAdd(Sum(values, whole - part).hash, Sum(values, part).hash);
  }
}
