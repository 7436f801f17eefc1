/** The order in which the workspace's crates are published. */
module CrateOrder {
  import opened Sequences

  datatype Crate = Crate(name: string, dependencies: seq<string>)

  /** The crates of the workspace in the order they were listed. */
  type Graph = seq<Crate>

  /** An order; or pairs of crates that need each other; or crates among which a cycle is suspected. */
  datatype Outcome = Ordered(order: seq<string>) | Mutual(pairs: set<set<string>>) | Suspected(names: set<string>)

  function Names(g: Graph): (names: set<string>) {
    set c | c in g :: c.name
  }

  ghost predicate WellFormed(g: Graph) {
    forall i, j :: 0 <= i < j < |g| ==> g[i].name != g[j].name
  }

  /** A crate needs another crate of the workspace. */
  ghost predicate Needs(g: Graph, a: string, b: string) {
    b in Names(g) && exists c :: c in g && c.name == a && b in c.dependencies
  }

  ghost predicate IsWalk(g: Graph, walk: seq<string>) {
    forall i :: 0 <= i < |walk| - 1 ==> Needs(g, walk[i], walk[i + 1])
  }

  ghost predicate IsCycle(g: Graph, walk: seq<string>) {
    |walk| >= 2 && walk[0] == walk[|walk| - 1] && IsWalk(g, walk)
  }

  ghost predicate Cyclic(g: Graph) {
    exists walk :: IsCycle(g, walk)
  }

  /** Every crate comes once, after all the crates of the workspace it needs. */
  ghost predicate IsPublishingOrder(g: Graph, order: seq<string>) {
    && Distinct(order)
    && (forall n :: n in Names(g) <==> n in order)
    && (forall i, b :: 0 <= i < |order| && Needs(g, order[i], b) ==> b in order[..i])
  }

  // ----- An order rules out cycles -----

  lemma {:induction false} WalkGoesBack(g: Graph, order: seq<string>, walk: seq<string>, k: nat) returns (at: nat)
    requires IsPublishingOrder(g, order) && IsWalk(g, walk) && k < |walk| && walk[0] in order
    ensures at < |order| && order[at] == walk[k]
    ensures forall first: nat :: first < |order| && order[first] == walk[0] ==> at + k <= first
  {
    if k == 0 {
      at :| 0 <= at < |order| && order[at] == walk[0];
    } else {
      var before := WalkGoesBack(g, order, walk, k - 1);
      assert Needs(g, walk[k - 1], walk[k]);
      at :| 0 <= at < before && order[..before][at] == walk[k];
    }
  }

  /** If there is a publishing order there is no cycle. */
  lemma OrderedIsAcyclic(g: Graph, order: seq<string>)
    requires IsPublishingOrder(g, order)
    ensures !Cyclic(g)
  {
    forall walk ensures !IsCycle(g, walk) {
      if IsWalk(g, walk) && |walk| >= 2 {
        assert Needs(g, walk[0], walk[1]);
        var k := |walk| - 1;
        var at := WalkGoesBack(g, order, walk, k);
        assert order[at] != walk[0];
      }
    }
  }

  // ----- A dead end holds a cycle -----

  /** Every crate left needs another crate left. */
  ghost predicate Stuck(g: Graph, left: set<string>) {
    left <= Names(g) && left != {} && forall a {:trigger Waits(g, left, a)} :: a in left ==> Waits(g, left, a)
  }

  ghost predicate Waits(g: Graph, left: set<string>, a: string) {
    exists b :: b in left && Needs(g, a, b)
  }

  lemma {:induction false} WalkWithin(g: Graph, left: set<string>, n: nat) returns (walk: seq<string>)
    requires Stuck(g, left)
    ensures |walk| == n + 1 && IsWalk(g, walk) && forall i :: 0 <= i < |walk| ==> walk[i] in left
  {
    if n == 0 {
      var a :| a in left;
      walk := [a];
    } else {
      var before := WalkWithin(g, left, n - 1);
      assert Waits(g, left, before[n - 1]);
      var b :| b in left && Needs(g, before[n - 1], b);
      walk := before + [b];
    }
  }

  /** A long enough walk meets itself. */
  lemma StuckIsCyclic(g: Graph, left: set<string>)
    requires Stuck(g, left)
    ensures Cyclic(g)
  {
    var walk := WalkWithin(g, left, |left|);
    if Distinct(walk) { DistinctFits(walk, left); }
    var i, j :| 0 <= i < j < |walk| && walk[i] == walk[j];
    var cycle := walk[i..j + 1];
    forall k | 0 <= k < |cycle| - 1 ensures Needs(g, cycle[k], cycle[k + 1]) {
      assert cycle[k] == walk[i + k] && cycle[k + 1] == walk[i + k + 1];
    }
    assert IsCycle(g, cycle);
  }

  /** Two crates that need each other, or one that needs itself, make a cycle. */
  lemma MutualIsCyclic(g: Graph, a: string, b: string)
    requires Needs(g, a, b) && Needs(g, b, a)
    ensures Cyclic(g)
  {
    assert IsCycle(g, [a, b, a]);
  }

  // ----- The ordering -----

  lemma NeedsOfCrate(g: Graph, i: nat, b: string)
    requires WellFormed(g) && i < |g|
    ensures Needs(g, g[i].name, b) <==> b in g[i].dependencies && b in Names(g)
  {
    if Needs(g, g[i].name, b) {
      var c :| c in g && c.name == g[i].name && b in c.dependencies;
      var j :| 0 <= j < |g| && g[j] == c;
      assert j == i;
    }
  }

  /** The pairs of crates that need each other; a crate that needs itself makes a pair of one. */
  ghost predicate IsMutual(g: Graph, pair: set<string>) {
    exists a, b :: pair == {a, b} && Needs(g, a, b) && Needs(g, b, a)
  }

  method MutualPairs(g: Graph) returns (pairs: set<set<string>>)
    requires WellFormed(g)
    ensures forall pair :: pair in pairs <==> IsMutual(g, pair)
  {
    pairs := {};
    for i := 0 to |g|
      invariant forall pair :: pair in pairs <==> exists k :: 0 <= k < i && MutualOf(g, k, pair)
    {
      var more := MutualPairsOf(g, i);
      pairs := pairs + more;
    }
    forall pair ensures IsMutual(g, pair) <==> exists k :: 0 <= k < |g| && MutualOf(g, k, pair) {
      if IsMutual(g, pair) {
        var a, b :| pair == {a, b} && Needs(g, a, b) && Needs(g, b, a);
        var c :| c in g && c.name == a;
        var k :| 0 <= k < |g| && g[k] == c;
        assert MutualOf(g, k, pair);
      }
      forall k | 0 <= k < |g| && MutualOf(g, k, pair) ensures IsMutual(g, pair) {
        var b :| pair == {g[k].name, b} && Needs(g, g[k].name, b) && Needs(g, b, g[k].name);
      }
    }
  }

  /** The pair is made of a crate and one of its dependencies. */
  ghost predicate MutualOf(g: Graph, i: nat, pair: set<string>)
    requires i < |g|
  {
    exists b :: pair == {g[i].name, b} && Needs(g, g[i].name, b) && Needs(g, b, g[i].name)
  }

  /** The dependencies of a crate that list it back. */
  method MutualPairsOf(g: Graph, i: nat) returns (pairs: set<set<string>>)
    requires WellFormed(g) && i < |g|
    ensures forall pair :: pair in pairs <==> MutualOf(g, i, pair)
  {
    pairs := {};
    var a, deps := g[i].name, g[i].dependencies;
    for d := 0 to |deps|
      invariant forall pair :: pair in pairs <==>
                exists e :: 0 <= e < d && pair == {a, deps[e]} && Needs(g, a, deps[e]) && Needs(g, deps[e], a)
    {
      NeedsOfCrate(g, i, deps[d]);
      if deps[d] in Names(g) {
        var j: nat :| j < |g| && g[j].name == deps[d];
        NeedsOfCrate(g, j, a);
        if a in g[j].dependencies {
          pairs := pairs + {{a, deps[d]}};
        }
      }
    }
    forall pair
      ensures MutualOf(g, i, pair) <==>
              exists e :: 0 <= e < |deps| && pair == {a, deps[e]} && Needs(g, a, deps[e]) && Needs(g, deps[e], a)
    {
      if MutualOf(g, i, pair) {
        var b :| pair == {a, b} && Needs(g, a, b) && Needs(g, b, a);
        NeedsOfCrate(g, i, b);
        var e :| 0 <= e < |deps| && deps[e] == b;
      }
    }
  }

  /** Whether a crate needs none of the crates left. */
  method IsReady(left: Graph, c: Crate) returns (ready: bool)
    ensures ready <==> forall d :: d in c.dependencies ==> d !in Names(left)
  {
    for d := 0 to |c.dependencies|
      invariant forall e :: 0 <= e < d ==> c.dependencies[e] !in Names(left)
    {
      if c.dependencies[d] in Names(left) {
        return false;
      }
    }
    return true;
  }

  ghost predicate Ready(left: Graph, c: Crate) {
    forall d :: d in c.dependencies ==> d !in Names(left)
  }

  /** The names of the first `n` crates that are ready. */
  ghost function ReadyNames(left: Graph, n: nat): (names: seq<string>)
    requires n <= |left|
  {
    if n == 0 then [] else ReadyNames(left, n - 1) + if Ready(left, left[n - 1]) then [left[n - 1].name] else []
  }

  /** The first `n` crates less those that are ready. */
  ghost function Waiting(left: Graph, n: nat): (rest: Graph)
    requires n <= |left|
  {
    if n == 0 then [] else Waiting(left, n - 1) + if Ready(left, left[n - 1]) then [] else [left[n - 1]]
  }

  lemma {:induction false} InReady(left: Graph, n: nat, t: string)
    requires n <= |left|
    ensures t in ReadyNames(left, n) <==> exists i :: 0 <= i < n && left[i].name == t && Ready(left, left[i])
  {
    if n > 0 { InReady(left, n - 1, t); }
  }

  lemma {:induction false} InWaiting(left: Graph, n: nat, c: Crate)
    requires n <= |left|
    ensures c in Waiting(left, n) <==> exists i :: 0 <= i < n && left[i] == c && !Ready(left, left[i])
  {
    if n > 0 { InWaiting(left, n - 1, c); }
  }

  /** A round splits the crates left: each name goes one way, and none is repeated. */
  lemma {:induction false} RoundSplits(left: Graph, n: nat)
    requires WellFormed(left) && n <= |left|
    ensures Distinct(ReadyNames(left, n)) && WellFormed(Waiting(left, n))
    ensures |ReadyNames(left, n)| + |Waiting(left, n)| == n
  {
    if n > 0 {
      RoundSplits(left, n - 1);
      var c, taken, rest := left[n - 1], ReadyNames(left, n - 1), Waiting(left, n - 1);
      assert c.name !in taken by { InReady(left, n - 1, c.name); }
      forall i | 0 <= i < |rest| ensures rest[i].name != c.name { InWaiting(left, n - 1, rest[i]); }
    }
  }

  /** One round: the crates left that need none of the crates left, and the others. */
  method TakeReady(left: Graph) returns (taken: seq<string>, rest: Graph)
    ensures taken == ReadyNames(left, |left|) && rest == Waiting(left, |left|)
  {
    taken, rest := [], [];
    for i := 0 to |left|
      invariant taken == ReadyNames(left, i) && rest == Waiting(left, i)
    {
      var ready := IsReady(left, left[i]);
      if ready {
        taken := taken + [left[i].name];
      } else {
        rest := rest + [left[i]];
      }
    }
  }

  /** Part of the crates have been ordered, the others are left. */
  ghost predicate Partial(g: Graph, left: Graph, order: seq<string>) {
    && WellFormed(left) && Distinct(order) && |left| + |order| == |g|
    && (forall c :: c in left ==> c in g && c.name !in order)
    && (forall n :: n in order ==> n in Names(g))
    && (forall n :: n in Names(g) ==> n in order || n in Names(left))
    && (forall i, b :: 0 <= i < |order| && Needs(g, order[i], b) ==> b in order[..i])
  }

  lemma PartialAtStart(g: Graph)
    requires WellFormed(g)
    ensures Partial(g, g, [])
  {
  }

  /** When nothing is left the order is complete. */
  lemma PartialAtEnd(g: Graph, order: seq<string>)
    requires Partial(g, [], order)
    ensures IsPublishingOrder(g, order)
  {
    assert Names([]) == {};
  }

  /** What a ready crate needs has been ordered already. */
  lemma ReadyNeedsOrdered(g: Graph, left: Graph, order: seq<string>, i: nat, b: string)
    requires WellFormed(g) && Partial(g, left, order) && i < |left| && Ready(left, left[i]) && Needs(g, left[i].name, b)
    ensures b in order
  {
    assert left[i] in left;
    var j :| 0 <= j < |g| && g[j] == left[i];
    NeedsOfCrate(g, j, b);
  }

  lemma NamesAfterRound(left: Graph)
    ensures forall n :: n in Names(left) ==> n in ReadyNames(left, |left|) || n in Names(Waiting(left, |left|))
    ensures forall c :: c in Waiting(left, |left|) ==> c in left
    ensures forall t :: t in ReadyNames(left, |left|) ==> t in Names(left)
  {
    forall n | n in Names(left) ensures n in ReadyNames(left, |left|) || n in Names(Waiting(left, |left|)) {
      var i :| 0 <= i < |left| && left[i].name == n;
      InReady(left, |left|, n);
      InWaiting(left, |left|, left[i]);
    }
    forall c | c in Waiting(left, |left|) ensures c in left { InWaiting(left, |left|, c); }
    forall t | t in ReadyNames(left, |left|) ensures t in Names(left) {
      InReady(left, |left|, t);
      var i :| 0 <= i < |left| && left[i].name == t;
      assert left[i] in left;
    }
  }

  lemma WaitingIsNotReady(left: Graph, c: Crate)
    requires WellFormed(left) && c in Waiting(left, |left|)
    ensures c.name !in ReadyNames(left, |left|)
  {
    InWaiting(left, |left|, c);
    InReady(left, |left|, c.name);
    var i :| 0 <= i < |left| && left[i] == c && !Ready(left, left[i]);
    forall j | 0 <= j < |left| && left[j].name == c.name ensures !Ready(left, left[j]) {
      assert j == i;
    }
  }

  lemma TakenIsNew(g: Graph, left: Graph, order: seq<string>, t: string)
    requires Partial(g, left, order) && t in ReadyNames(left, |left|)
    ensures t in Names(g) && t !in order
  {
    InReady(left, |left|, t);
    var i :| 0 <= i < |left| && left[i].name == t;
    assert left[i] in left;
  }

  lemma TakenNeedsOrdered(g: Graph, left: Graph, order: seq<string>, t: string, b: string)
    requires WellFormed(g) && Partial(g, left, order) && t in ReadyNames(left, |left|) && Needs(g, t, b)
    ensures b in order
  {
    InReady(left, |left|, t);
    var k :| 0 <= k < |left| && left[k].name == t && Ready(left, left[k]);
    ReadyNeedsOrdered(g, left, order, k, b);
  }

  /** Each crate ordered by a round comes after what it needs. */
  lemma NeedsAfterRound(g: Graph, left: Graph, order: seq<string>, i: nat, b: string)
    requires WellFormed(g) && Partial(g, left, order)
    requires var all := order + ReadyNames(left, |left|); i < |all| && Needs(g, all[i], b)
    ensures b in (order + ReadyNames(left, |left|))[..i]
  {
    var all := order + ReadyNames(left, |left|);
    if i < |order| {
      assert all[..i] == order[..i] && all[i] == order[i];
    } else {
      assert all[i] in ReadyNames(left, |left|);
      TakenNeedsOrdered(g, left, order, all[i], b);
      assert all[..i][..|order|] == order;
    }
  }

  /** A round keeps what was ordered in order. */
  lemma RoundKeepsOrder(g: Graph, left: Graph, order: seq<string>)
    requires WellFormed(g) && Partial(g, left, order)
    ensures Partial(g, Waiting(left, |left|), order + ReadyNames(left, |left|))
  {
    var taken, rest := ReadyNames(left, |left|), Waiting(left, |left|);
    RoundSplits(left, |left|);
    NamesAfterRound(left);
    forall t | t in taken ensures t in Names(g) && t !in order { TakenIsNew(g, left, order, t); }
    DistinctConcat(order, taken);
    forall c | c in rest ensures c in g && c.name !in order + taken { WaitingIsNotReady(left, c); }
    forall i, b | 0 <= i < |order + taken| && Needs(g, (order + taken)[i], b) ensures b in (order + taken)[..i] {
      NeedsAfterRound(g, left, order, i, b);
    }
  }

  /** A round that takes nothing leaves crates that all wait for one another. */
  lemma IdleRoundIsStuck(g: Graph, left: Graph, order: seq<string>)
    requires Partial(g, left, order) && left != [] && ReadyNames(left, |left|) == []
    ensures Stuck(g, Names(left)) && Waiting(left, |left|) == left
  {
    NothingTaken(left, |left|);
    forall a | a in Names(left) ensures Waits(g, Names(left), a) {
      var i :| 0 <= i < |left| && left[i].name == a;
      InReady(left, |left|, a);
      assert !Ready(left, left[i]);
      var d :| d in left[i].dependencies && d in Names(left);
      assert left[i] in left;
      assert Needs(g, a, d);
    }
    assert left[0] in left;
    assert left[0].name in Names(left);
  }

  lemma {:induction false} NothingTaken(left: Graph, n: nat)
    requires n <= |left| && ReadyNames(left, n) == []
    ensures Waiting(left, n) == left[..n]
  {
    if n > 0 { NothingTaken(left, n - 1); }
  }

  /** Order the crates, or report which ones need each other; the budget of rounds is the number of crates squared. */
  method PublishingOrder(g: Graph) returns (outcome: Outcome)
    requires WellFormed(g)
    ensures outcome.Ordered? <==> !Cyclic(g)
    ensures outcome.Ordered? ==> IsPublishingOrder(g, outcome.order)
    ensures outcome.Mutual? ==> outcome.pairs != {} && forall pair :: pair in outcome.pairs <==> IsMutual(g, pair)
    ensures outcome.Suspected? ==> Stuck(g, outcome.names) && forall pair :: !IsMutual(g, pair)
  {
    var pairs := MutualPairs(g);
    if pairs != {} {
      ghost var pair :| pair in pairs;
      ghost var a, b :| pair == {a, b} && Needs(g, a, b) && Needs(g, b, a);
      MutualIsCyclic(g, a, b);
      return Mutual(pairs);
    }
    var left, order := g, [];
    var maxIterations := |g| * |g|;
    PartialAtStart(g);
    while left != []
      invariant Partial(g, left, order) && maxIterations >= 0
      invariant maxIterations >= |g| * |g| - |order| || Stuck(g, Names(left))
      decreases maxIterations
    {
      if maxIterations == 0 {
        SquareIsEnough(|g|, |order|);
        StuckIsCyclic(g, Names(left));
        return Suspected(Names(left));
      }
      maxIterations := maxIterations - 1;
      var taken, rest := TakeReady(left);
      if taken == [] {
        IdleRoundIsStuck(g, left, order);
      } else {
        TakenIsNotStuck(g, left, order);
      }
      RoundKeepsOrder(g, left, order);
      left, order := rest, order + taken;
    }
    PartialAtEnd(g, order);
    OrderedIsAcyclic(g, order);
    outcome := Ordered(order);
  }

  /** A round that takes something did not start from crates that all wait for one another. */
  lemma TakenIsNotStuck(g: Graph, left: Graph, order: seq<string>)
    requires WellFormed(g) && Partial(g, left, order) && ReadyNames(left, |left|) != []
    ensures !Stuck(g, Names(left))
  {
    var t := ReadyNames(left, |left|)[0];
    InReady(left, |left|, t);
    var i :| 0 <= i < |left| && left[i].name == t && Ready(left, left[i]);
    assert left[i] in left;
    var j :| 0 <= j < |g| && g[j] == left[i];
    forall b | b in Names(left) ensures !Needs(g, t, b) { NeedsOfCrate(g, j, b); }
    assert !Waits(g, Names(left), t);
  }

  lemma SquareIsEnough(n: nat, done: nat)
    requires done < n
    ensures n * n - done > 0
  {
    assert n * n >= n;
  }
}
