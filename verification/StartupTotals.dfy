/** What tallies of account versions amount to, in plain sums over the funded ones. */
module StartupTotals {
  import opened Types
  import opened LatticeHash
  import opened StartupScan

  /** Those of the versions that have lamports. */
  ghost function Funded(db: Contents, s: set<Version>): (funded: set<Version>)
    requires s <= db.Keys
  {
    set v | v in s && db[v].lamports > 0
  }

  /** The sum of one element of the hashes of the versions, without wrap-around. */
  ghost function ElementTotal(hasher: Hasher, db: Contents, s: set<Version>, e: nat): (n: nat)
    requires s <= db.Keys && e < NUM_ELEMENTS
  {
    if s == {} then 0
    else
      var v: Version :| v in s;
      ElementTotal(hasher, db, s - {v}, e) + hasher(v.key, db[v])[e] as int
  }

  ghost function DataTotal(db: Contents, s: set<Version>): (n: nat)
    requires s <= db.Keys
  {
    if s == {} then 0
    else
      var v: Version :| v in s;
      DataTotal(db, s - {v}) + |db[v].data|
  }

  /** The totals do not depend on the order in which versions are taken. */
  lemma {:induction false} TotalTakeOut(hasher: Hasher, db: Contents, s: set<Version>, e: nat, v: Version)
    requires s <= db.Keys && e < NUM_ELEMENTS && v in s
    ensures ElementTotal(hasher, db, s, e) == ElementTotal(hasher, db, s - {v}, e) + hasher(v.key, db[v])[e] as int
    decreases |s|
  {
    var w: Version :| w in s && ElementTotal(hasher, db, s, e) ==
                                ElementTotal(hasher, db, s - {w}, e) + hasher(w.key, db[w])[e] as int;
    if w != v {
      TotalTakeOut(hasher, db, s - {w}, e, v);
      TotalTakeOut(hasher, db, s - {v}, e, w);
      assert s - {w} - {v} == s - {v} - {w};
    }
  }

  lemma {:induction false} DataTakeOut(db: Contents, s: set<Version>, v: Version)
    requires s <= db.Keys && v in s
    ensures DataTotal(db, s) == DataTotal(db, s - {v}) + |db[v].data|
    decreases |s|
  {
    var w: Version :| w in s && DataTotal(db, s) == DataTotal(db, s - {w}) + |db[w].data|;
    if w != v {
      DataTakeOut(db, s - {w}, v);
      DataTakeOut(db, s - {v}, w);
      assert s - {w} - {v} == s - {v} - {w};
    }
  }

  /** Wrapping at every addition is wrapping the total. */
  lemma WrapsOnce(before: int, wrapped: int, one: int, total: int, result: int)
    requires wrapped == before % 65536 && result == (wrapped + one) % 65536 && total == before + one
    ensures result == total % 65536
  {
  }

  lemma FundedWithout(db: Contents, s: set<Version>, v: Version)
    requires s <= db.Keys && v in s
    ensures Funded(db, s - {v}) == Funded(db, s) - {v}
    ensures v in Funded(db, s) <==> db[v].lamports > 0
  {
  }

  /** Each element of a sum of hashes is the sum of that element over the funded versions, modulo 65536. */
  lemma {:induction false} HashOfSum(hasher: Hasher, db: Contents, s: set<Version>, e: nat)
    requires s <= db.Keys && e < NUM_ELEMENTS
    ensures Sum(Values(hasher, db), s).hash[e] as int == ElementTotal(hasher, db, Funded(db, s), e) % 65536
    decreases |s|
  {
    if s == {} {
      assert Funded(db, s) == {};
    } else {
      var v: Version :| v in s;
      SumTakeOut(Values(hasher, db), s, v);
      HashOfSum(hasher, db, s - {v}, e);
      FundedWithout(db, s, v);
      OneMoreHash(hasher, db, s, e, v);
    }
  }

  lemma ElementOfAdd(a: LtHash, b: LtHash, e: nat)
    requires e < NUM_ELEMENTS
    ensures Add(a, b)[e] as int == (a[e] as int + b[e] as int) % 65536
  {
  }

  lemma OneMoreHash(hasher: Hasher, db: Contents, s: set<Version>, e: nat, v: Version)
    requires s <= db.Keys && e < NUM_ELEMENTS && v in s
    requires Funded(db, s - {v}) == Funded(db, s) - {v} && (v in Funded(db, s) <==> db[v].lamports > 0)
    requires Sum(Values(hasher, db), s) == Plus(Sum(Values(hasher, db), s - {v}), Values(hasher, db)[v])
    requires Sum(Values(hasher, db), s - {v}).hash[e] as int ==
             ElementTotal(hasher, db, Funded(db, s - {v}), e) % 65536
    ensures Sum(Values(hasher, db), s).hash[e] as int == ElementTotal(hasher, db, Funded(db, s), e) % 65536
  {
    var before: int := ElementTotal(hasher, db, Funded(db, s - {v}), e);
    var total: int := ElementTotal(hasher, db, Funded(db, s), e);
    var one: int := if db[v].lamports > 0 then hasher(v.key, db[v])[e] as int else 0;
    var last := Sum(Values(hasher, db), s - {v}).hash;
    assert Values(hasher, db)[v].hash[e] as int == one;
    assert total == before + one by {
      if db[v].lamports > 0 {
        TotalTakeOut(hasher, db, Funded(db, s), e, v);
      } else {
        assert Funded(db, s) - {v} == Funded(db, s);
      }
    }
    ElementOfAdd(last, Values(hasher, db)[v].hash, e);
    WrapsOnce(before, last[e] as int, one, total, Add(last, Values(hasher, db)[v].hash)[e] as int);
  }

  lemma {:induction false} DataOfSum(hasher: Hasher, db: Contents, s: set<Version>)
    requires s <= db.Keys
    ensures Sum(Values(hasher, db), s).dataLen == DataTotal(db, Funded(db, s))
    decreases |s|
  {
    if s == {} {
      assert Funded(db, s) == {};
    } else {
      var v: Version :| v in s;
      SumTakeOut(Values(hasher, db), s, v);
      DataOfSum(hasher, db, s - {v});
      FundedWithout(db, s, v);
      if db[v].lamports > 0 {
        DataTakeOut(db, Funded(db, s), v);
      } else {
        assert Funded(db, s) - {v} == Funded(db, s);
      }
    }
  }
}
