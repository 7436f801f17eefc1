/**
  One reader that took the FixedMaxRoot hint, interleaved with every step of the storage protocol.
  Its ancestors may hold slots still being written to, such as the slot whose transactions it loads
  for; what nobody writes while it reads is the key it reads, in those slots, which the transaction
  has locked.

  The reader reads the index, then looks up the cache, or the storage map, the shrink map and the
  storage map again, with no lock held in between, and starts over from the index when everything
  it looked up is gone.
*/
module ReaderSafety {
  import opened Types
  import opened StorageProtocol
  import opened ProtocolInvariant

  const LOAD_LIMIT: nat := 100

  datatype Pc =
    | Idle
    | ReadIndex
    | GetCache(slot: Slot)
    | HoldCache(slot: Slot, contents: map<Pubkey, Account>)
    | Lookup(slot: Slot, id: StoreId, offset: Offset, attempt: nat)
    | HoldStore(slot: Slot, id: StoreId, offset: Offset)
    | Retry(slot: Slot, tried: Location)
    | Found(slot: Slot, account: Account)
    | Missing
    | SlowPath
    | Panicked

  datatype System = System(db: Db, key: Pubkey, ancestors: set<Slot>, pc: Pc, misses: nat)

  datatype Action =
    | Background(step: Step)
    | BeginRead(key: Pubkey, ancestors: set<Slot>)
    | ReaderStep
    | EndRead

  function Visible(sys: System): (slots: set<Slot>) {
    sys.ancestors + sys.db.roots
  }

  /** The newest visible slot that has an entry for the key in the index. */
  ghost predicate LatestIndexed(sys: System, s: Slot) {
    && s in Visible(sys) && Version(sys.key, s) in sys.db.index
    && (forall t :: t in Visible(sys) && Version(sys.key, t) in sys.db.index ==> t <= s)
  }

  /** The newest visible slot in which the key was ever stored. */
  ghost predicate NewestStored(sys: System, s: Slot) {
    && s in Visible(sys) && Version(sys.key, s) in sys.db.logical
    && (forall t :: t in Visible(sys) && Version(sys.key, t) in sys.db.logical ==> t <= s)
  }

  function SameStoreId(a: Location, b: Location): (same: bool) {
    match a
    case Cached => b.Cached?
    case AppendVec(id, _) => b.AppendVec? && b.id == id
  }

  function Resume(sys: System, slot: Slot, loc: Location): (sys': System) {
    match loc
    case Cached => sys.(pc := GetCache(slot))
    case AppendVec(id, offset) => sys.(pc := Lookup(slot, id, offset, 0))
  }

  function CacheMiss(sys: System, slot: Slot): (sys': System) {
    sys.(misses := sys.misses + 1, pc := if sys.misses + 1 <= 1 then Retry(slot, Cached) else Panicked)
  }

  predicate Maps(m: map<Slot, StoreId>, slot: Slot, id: StoreId) {
    slot in m && m[slot] == id
  }

  /** One atomic step of the reader; the index read finds the newest visible entry under the key's lock. */
  ghost function Advance(sys: System): (sys': System) {
    var db := sys.db;
    match sys.pc
    case ReadIndex =>
      if s :| LatestIndexed(sys, s) then Resume(sys, s, db.index[Version(sys.key, s)])
      else sys.(pc := Missing)
    case GetCache(slot) =>
      if slot in db.cache then sys.(pc := HoldCache(slot, db.cache[slot])) else CacheMiss(sys, slot)
    case HoldCache(slot, contents) =>
      if sys.key in contents then sys.(pc := Found(slot, contents[sys.key])) else CacheMiss(sys, slot)
    case Lookup(slot, id, offset, attempt) =>
      if Maps(if attempt == 1 then db.shrinking else db.storage, slot, id) then
        sys.(pc := HoldStore(slot, id, offset))
      else if attempt < 2 then
        sys.(pc := Lookup(slot, id, offset, attempt + 1))
      else
        sys.(pc := Retry(slot, AppendVec(id, offset)))
    case HoldStore(slot, id, offset) =>
      if id in db.files && offset in db.files[id] then sys.(pc := Found(slot, db.files[id][offset]))
      else sys.(pc := Panicked)
    case Retry(slot, tried) =>
      if s :| LatestIndexed(sys, s) then
        var loc := db.index[Version(sys.key, s)];
        if s == slot && SameStoreId(loc, tried) then sys.(pc := Panicked)
        else if sys.misses >= LOAD_LIMIT then sys.(pc := SlowPath)
        else Resume(sys, s, loc)
      else sys.(pc := Missing)
    case _ => sys
  }

  /** A version that is frozen, or that no write has left stored but not yet in the index. */
  ghost predicate AtRest(db: Db, v: Version) {
    v.slot in db.frozen || (v in db.logical ==> v in db.index)
  }

  predicate Writes(step: Step, v: Version) {
    (step.Write? || step.PublishWrite?) && v == Version(step.k, step.s)
  }

  /** What may not happen during a read: a new root, and a write of the key in one of the reader's slots. */
  predicate Disturbs(sys: System, step: Step) {
    step.AddRoot? || (step.s in sys.ancestors && Writes(step, Version(sys.key, step.s)))
  }

  ghost predicate Allowed(sys: System, action: Action) {
    match action
    case Background(step) => Enabled(sys.db, step) && (Disturbs(sys, step) ==> sys.pc.Idle?)
    case BeginRead(key, ancestors) =>
      && sys.pc.Idle?
      && (forall a :: a in ancestors ==> AtRest(sys.db, Version(key, a)))
      && (forall a, r :: a in ancestors && r in sys.db.roots && a !in sys.db.roots ==> r < a)
    case ReaderStep => !sys.pc.Idle?
    case EndRead => sys.pc.Found? || sys.pc.Missing?
  }

  ghost function Next(sys: System, action: Action): (sys': System)
    requires Allowed(sys, action)
  {
    match action
    case Background(step) => sys.(db := Apply(sys.db, step))
    case BeginRead(key, ancestors) => sys.(key := key, ancestors := ancestors, pc := ReadIndex, misses := 0)
    case ReaderStep => Advance(sys)
    case EndRead => sys.(pc := Idle)
  }

  function Start(): (sys: System) {
    System(Empty(), 0, {}, Idle, 0)
  }

  ghost predicate IsRun(states: seq<System>, actions: seq<Action>) {
    && |states| == |actions| + 1
    && states[0] == Start()
    && (forall i :: 0 <= i < |actions| ==>
       Allowed(states[i], actions[i]) && states[i + 1] == Next(states[i], actions[i]))
  }

  // ----- What the background does to a version nobody writes -----

  /** A location only ever moves on: out of the cache, or to a storage with a larger id. */
  ghost predicate MovedOn(before: Location, after: Location) {
    after.AppendVec? && (before.AppendVec? ==> before.id < after.id)
  }

  ghost predicate Progress(db: Db, db': Db, v: Version) {
    && (AtRest(db, v) ==> AtRest(db', v))
    && SameFor(db.logical, db'.logical, v)
    && (v in db'.index ==> v in db.index)
    && (v in db'.index && db'.index[v] != db.index[v] ==> MovedOn(db.index[v], db'.index[v]))
    && (v in db'.index && db'.index[v] == db.index[v] && db.index[v].AppendVec? ==>
          Maps(db.storage, v.slot, db.index[v].id) ==> Maps(db'.storage, v.slot, db.index[v].id))
  }

  lemma StepStaysInSlot(db: Db, step: Step)
    requires Inv(db) && Enabled(db, step)
    ensures OnlySlot(db, Apply(db, step), step.s)
  {
    assert SlotOk(db, step.s);
    if TakesOut(step) { RemovingStep(db, step); } else { StepLocal(db, step); }
  }

  /** Outside its own slot a step changes nothing a reader can see. */
  lemma ElsewhereProgress(db: Db, db': Db, s: Slot, v: Version)
    requires OnlySlot(db, db', s) && v.slot != s
    ensures Progress(db, db', v)
  {
    assert SameSlot(db, db', v.slot) && SameFor(db.index, db'.index, v) && SameFor(db.logical, db'.logical, v);
  }

  lemma StepProgress(db: Db, step: Step, v: Version)
    requires Inv(db) && Enabled(db, step) && !Writes(step, v)
    ensures Progress(db, Apply(db, step), v)
  {
    if v.slot != step.s {
      StepStaysInSlot(db, step);
      ElsewhereProgress(db, Apply(db, step), step.s, v);
    } else if step.IndexAccount? {
      IndexProgress(db, step.s, step.k, v);
    } else if TakesOut(step) || step.DropStorage? {
      CleanProgress(db, step, v);
    } else if step.Write? || step.PublishWrite? || step.Freeze? || step.AddRoot? {
      WriterProgress(db, step, v);
    } else {
      JobProgress(db, step, v);
    }
  }

  lemma WriterProgress(db: Db, step: Step, v: Version)
    requires Enabled(db, step) && !Writes(step, v)
    requires (step.Write? || step.PublishWrite? || step.Freeze? || step.AddRoot?)
    requires SlotOk(db, v.slot) && CachesOk(db) && v.slot == step.s
    ensures Progress(db, Apply(db, step), v)
  {
    if v in db.logical { assert CacheOk(db, v); }
  }

  /** No entry refers to a storage that is dropped. */
  lemma CleanProgress(db: Db, step: Step, v: Version)
    requires Enabled(db, step) && (TakesOut(step) || step.DropStorage?) && v.slot == step.s
    requires SlotOk(db, v.slot) && VersionsOk(db)
    ensures Progress(db, Apply(db, step), v)
  {
    if TakesOut(step) && Version(step.k, step.s) in db.index { assert VersionOk(db, Version(step.k, step.s)); }
    if v in db.index { assert v.key in IndexedAt(db, v.slot); }
  }

  lemma JobProgress(db: Db, step: Step, v: Version)
    requires SlotOk(db, v.slot) && VersionsOk(db) && Enabled(db, step) && v.slot == step.s
    requires !step.IndexAccount? && !TakesOut(step) && !step.DropStorage?
    requires !step.Write? && !step.PublishWrite? && !step.Freeze? && !step.AddRoot?
    ensures Progress(db, Apply(db, step), v)
  {
    if v in db.index { assert VersionOk(db, v); }
  }

  lemma IndexProgress(db: Db, s: Slot, k: Pubkey, v: Version)
    requires Inv(db) && CanIndex(db, s, k) && v.slot == s
    ensures Progress(db, DoIndex(db, s, k), v)
  {
    assert SlotOk(db, s);
    assert Version(k, s) in db.index;
    assert VersionOk(db, Version(k, s));
  }

  // ----- What the reader keeps -----

  ghost predicate ReaderOk(sys: System) {
    var db, k := sys.db, sys.key;
    match sys.pc
    case Idle => true
    case ReadIndex => sys.misses == 0
    case GetCache(slot) => NewestStored(sys, slot) && sys.misses == 0
    case HoldCache(slot, contents) =>
      NewestStored(sys, slot) && sys.misses == 0 && k in contents && contents[k] == db.logical[Version(k, slot)]
    case Lookup(slot, id, offset, attempt) =>
      var v := Version(k, slot);
      && NewestStored(sys, slot) && Holds(db, id, offset, v) && attempt <= 2
      && (v in db.index ==> db.index[v].AppendVec? && id <= db.index[v].id)
      && (attempt == 2 && v in db.index && db.index[v].id == id ==> Maps(db.storage, slot, id))
    case HoldStore(slot, id, offset) =>
      NewestStored(sys, slot) && Holds(db, id, offset, Version(k, slot))
    case Retry(slot, tried) =>
      NewestStored(sys, slot) && (Version(k, slot) in db.index ==> MovedOn(tried, db.index[Version(k, slot)]))
    case Found(slot, account) =>
      NewestStored(sys, slot) && account == db.logical[Version(k, slot)]
    case Missing =>
      forall s :: NewestStored(sys, s) ==> db.logical[Version(k, s)].lamports == 0
    case SlowPath => false
    case Panicked => false
  }

  ghost predicate ViewOk(sys: System) {
    && (forall a :: a in sys.ancestors ==> AtRest(sys.db, Version(sys.key, a)))
    && (forall a, r :: a in sys.ancestors && r in sys.db.roots && a !in sys.db.roots ==> r < a)
  }

  ghost predicate SystemOk(sys: System) {
    && Inv(sys.db)
    && sys.misses <= 1
    && (!sys.pc.Idle? ==> ViewOk(sys) && ReaderOk(sys))
  }

  lemma VisibleIsAtRest(sys: System, s: Slot)
    requires Inv(sys.db) && ViewOk(sys) && s in Visible(sys)
    ensures AtRest(sys.db, Version(sys.key, s))
  {
    assert SlotOk(sys.db, s);
  }

  /** During a read no step writes the key in a visible slot: roots are frozen, and the ancestors are guarded. */
  lemma VisibleIsNotWritten(sys: System, step: Step, s: Slot)
    requires Inv(sys.db) && s in Visible(sys) && Enabled(sys.db, step) && !Disturbs(sys, step)
    ensures !Writes(step, Version(sys.key, s))
  {
    assert SlotOk(sys.db, s);
  }

  /** Whatever left the index was superseded or erased, so the newest indexed version is the newest stored one. */
  lemma LatestIsNewest(sys: System, s: Slot)
    requires Inv(sys.db) && ViewOk(sys) && LatestIndexed(sys, s)
    ensures NewestStored(sys, s)
  {
    var db := sys.db;
    assert VersionOk(db, Version(sys.key, s));
    forall t | t in Visible(sys) && Version(sys.key, t) in db.logical ensures t <= s {
      if Version(sys.key, t) !in db.index {
        VisibleIsAtRest(sys, t);
        GoneIsOlder(sys, s, t);
      }
    }
  }

  lemma GoneIsOlder(sys: System, s: Slot, t: Slot)
    requires ViewOk(sys) && LatestIndexed(sys, s) && GoneOk(sys.db, Version(sys.key, t))
    ensures t < s
  {
    var db := sys.db;
    if Superseded(db, sys.key, t) {
      var newer: Slot :| newer in db.roots && t < newer && Version(sys.key, newer) in db.index;
      assert newer in Visible(sys);
    } else {
      var zero: Slot :| ErasedAt(db, sys.key, zero) && t <= zero;
      assert zero < s;
    }
  }

  /** A key missing from the index was never stored in a visible slot, or its newest version has no lamports. */
  lemma NothingIndexed(sys: System, s: Slot)
    requires Inv(sys.db) && ViewOk(sys) && !(exists t :: LatestIndexed(sys, t)) && NewestStored(sys, s)
    ensures sys.db.logical[Version(sys.key, s)].lamports == 0
  {
    var db := sys.db;
    NoneVisible(sys);
    VisibleIsAtRest(sys, s);
    assert GoneOk(db, Version(sys.key, s));
    assert forall r :: r in db.roots ==> r in Visible(sys);
    var zero: Slot :| ErasedAt(db, sys.key, zero) && s <= zero;
  }

  lemma NoneVisible(sys: System)
    requires !(exists t :: LatestIndexed(sys, t))
    ensures forall t :: t in Visible(sys) ==> Version(sys.key, t) !in sys.db.index
  {
    var slots := set t | t in Visible(sys) && Version(sys.key, t) in sys.db.index;
    if slots != {} {
      var top := MaxSlot(slots);
      forall t | t in Visible(sys) && Version(sys.key, t) in sys.db.index ensures t <= top {
        assert t in slots;
      }
      assert LatestIndexed(sys, top);
    } else {
      forall t | t in Visible(sys) ensures Version(sys.key, t) !in sys.db.index {
        assert t !in slots;
      }
    }
  }

  // ----- Every action keeps it -----

  lemma NewestStays(sys: System, step: Step, s: Slot)
    requires SystemOk(sys) && !sys.pc.Idle? && Enabled(sys.db, step) && !Disturbs(sys, step)
    ensures NewestStored(sys, s) <==> NewestStored(Next(sys, Background(step)), s)
  {
    var sys' := Next(sys, Background(step));
    assert Visible(sys') == Visible(sys);
    forall t | t in Visible(sys) ensures SameFor(sys.db.logical, sys'.db.logical, Version(sys.key, t)) {
      VisibleIsNotWritten(sys, step, t);
      StepProgress(sys.db, step, Version(sys.key, t));
    }
  }

  lemma FilesNeverShrink(db: Db, step: Step)
    requires Inv(db) && Enabled(db, step)
    ensures FilesGrow(db, Apply(db, step))
  {
    assert SlotOk(db, step.s);
    if TakesOut(step) { RemovingStep(db, step); } else { StepLocal(db, step); }
  }

  lemma ViewStays(sys: System, step: Step)
    requires SystemOk(sys) && !sys.pc.Idle? && Enabled(sys.db, step) && !Disturbs(sys, step)
    ensures ViewOk(Next(sys, Background(step)))
  {
    var db' := Apply(sys.db, step);
    forall a | a in sys.ancestors ensures AtRest(db', Version(sys.key, a)) {
      VisibleIsNotWritten(sys, step, a);
      StepProgress(sys.db, step, Version(sys.key, a));
    }
  }

  lemma BackgroundKeepsReader(sys: System, step: Step)
    requires SystemOk(sys) && !sys.pc.Idle? && Enabled(sys.db, step) && !Disturbs(sys, step)
    ensures ReaderOk(Next(sys, Background(step)))
  {
    var sys' := Next(sys, Background(step));
    FilesNeverShrink(sys.db, step);
    forall s ensures NewestStored(sys, s) <==> NewestStored(sys', s) { NewestStays(sys, step, s); }
    if sys.pc.Missing? {
      forall s | NewestStored(sys', s) ensures sys'.db.logical[Version(sys.key, s)].lamports == 0 {
        VisibleIsNotWritten(sys, step, s);
        StepProgress(sys.db, step, Version(sys.key, s));
      }
    } else if !sys.pc.ReadIndex? {
      VisibleIsNotWritten(sys, step, sys.pc.slot);
      StepProgress(sys.db, step, Version(sys.key, sys.pc.slot));
    }
  }

  /**
    An index entry that did not move is found by the second or the third lookup, whatever finished or began meanwhile.
  */
  lemma UnmovedIsInAMap(db: Db, v: Version, id: StoreId)
    requires Inv(db) && v in db.index && InStore(db.index[v], id)
    ensures Maps(db.storage, v.slot, id) || Maps(db.shrinking, v.slot, id)
  {
    assert VersionOk(db, v);
    assert SlotOk(db, v.slot);
  }

  lemma CachedIsInCache(db: Db, v: Version)
    requires Inv(db) && v in db.logical && v.slot in db.cache
    ensures v.key in db.cache[v.slot] && db.cache[v.slot][v.key] == db.logical[v]
  {
    assert CacheOk(db, v);
  }

  lemma ReaderStepKeeps(sys: System)
    requires SystemOk(sys) && !sys.pc.Idle?
    ensures SystemOk(Advance(sys))
  {
    match sys.pc
    case ReadIndex => IndexReadKeeps(sys);
    case Retry(slot, tried) => IndexReadKeeps(sys);
    case GetCache(slot) => CacheReadKeeps(sys);
    case Lookup(slot, id, offset, attempt) => LookupKeeps(sys);
    case _ => HeldKeeps(sys);
  }

  lemma CacheReadKeeps(sys: System)
    requires SystemOk(sys) && sys.pc.GetCache?
    ensures SystemOk(Advance(sys))
  {
    var v := Version(sys.key, sys.pc.slot);
    if sys.pc.slot in sys.db.cache {
      CachedIsInCache(sys.db, v);
    } else if v in sys.db.index {
      assert VersionOk(sys.db, v);
    }
  }

  lemma LookupKeeps(sys: System)
    requires SystemOk(sys) && sys.pc.Lookup?
    ensures SystemOk(Advance(sys))
  {
    var v := Version(sys.key, sys.pc.slot);
    if v in sys.db.index && sys.db.index[v].id == sys.pc.id { UnmovedIsInAMap(sys.db, v, sys.pc.id); }
  }

  lemma HeldKeeps(sys: System)
    requires SystemOk(sys) && (sys.pc.HoldCache? || sys.pc.HoldStore? || sys.pc.Found? || sys.pc.Missing?)
    ensures SystemOk(Advance(sys))
  {
  }

  lemma IndexReadKeeps(sys: System)
    requires SystemOk(sys) && (sys.pc.ReadIndex? || sys.pc.Retry?)
    ensures SystemOk(Advance(sys))
  {
    if exists s :: LatestIndexed(sys, s) {
      forall s | LatestIndexed(sys, s)
        ensures NewestStored(sys, s) && VersionOk(sys.db, Version(sys.key, s))
      {
        LatestIsNewest(sys, s);
      }
    } else {
      forall s | NewestStored(sys, s) ensures sys.db.logical[Version(sys.key, s)].lamports == 0 {
        NothingIndexed(sys, s);
      }
    }
  }

  lemma ActionKeeps(sys: System, action: Action)
    requires SystemOk(sys) && Allowed(sys, action)
    ensures SystemOk(Next(sys, action))
  {
    match action
    case Background(step) =>
      StepKeepsInvariant(sys.db, step);
      if !sys.pc.Idle? {
        BackgroundKeepsReader(sys, step);
        ViewStays(sys, step);
      }
    case BeginRead(key, ancestors) =>
    case ReaderStep => ReaderStepKeeps(sys);
    case EndRead =>
  }

  /** What the callers of the database rely on, in any one state. */
  ghost predicate Safe(sys: System) {
    && !sys.pc.Panicked? && !sys.pc.SlowPath? && sys.misses <= 1
    && (sys.pc.Found? ==>
         NewestStored(sys, sys.pc.slot) && sys.pc.account == sys.db.logical[Version(sys.key, sys.pc.slot)])
    && (sys.pc.Missing? ==>
         forall s :: NewestStored(sys, s) ==> sys.db.logical[Version(sys.key, s)].lamports == 0)
  }

  lemma {:induction false} RunKeepsSystem(states: seq<System>, actions: seq<Action>, i: nat)
    requires IsRun(states, actions) && i < |states|
    ensures SystemOk(states[i])
  {
    if i == 0 {
      EmptyIsConsistent();
    } else {
      RunKeepsSystem(states, actions, i - 1);
      ActionKeeps(states[i - 1], actions[i - 1]);
    }
  }

  /** In every state of every run from an empty database the reader is safe. */
  lemma ReaderIsSafe(states: seq<System>, actions: seq<Action>, i: nat)
    requires IsRun(states, actions) && i < |states|
    ensures Safe(states[i])
  {
    RunKeepsSystem(states, actions, i);
  }

  /** A reader that missed all three lookups can count on the index having moved on, in every run. */
  lemma MissedEntryHasMoved(states: seq<System>, actions: seq<Action>, i: nat)
    requires IsRun(states, actions) && i < |states|
    requires states[i].pc.Retry?
    ensures var sys := states[i];
            var v := Version(sys.key, sys.pc.slot);
            v in sys.db.index ==> !SameStoreId(sys.db.index[v], sys.pc.tried)
  {
    RunKeepsSystem(states, actions, i);
  }

  /**
    Clean takes the entry out of the index and then drops the storage.  In every run, a reader that lost its store
    that way reads no entry at all on its retry, and reports the key as missing.
  */
  lemma CleanedReadIsMissing(states: seq<System>, actions: seq<Action>, i: nat)
    requires IsRun(states, actions) && i < |states|
    requires states[i].pc.Retry? && Version(states[i].key, states[i].pc.slot) !in states[i].db.index
    ensures Advance(states[i]).pc == Missing
    ensures var v := Version(states[i].key, states[i].pc.slot);
            v in states[i].db.logical && states[i].db.logical[v].lamports == 0
  {
    RunKeepsSystem(states, actions, i);
    GoneIsMissing(states[i], states[i].pc.slot);
  }

  lemma GoneIsMissing(sys: System, slot: Slot)
    requires Inv(sys.db) && ViewOk(sys) && NewestStored(sys, slot) && Version(sys.key, slot) !in sys.db.index
    ensures !(exists s :: LatestIndexed(sys, s))
    ensures sys.db.logical[Version(sys.key, slot)].lamports == 0
  {
    forall s | LatestIndexed(sys, s) ensures s == slot { LatestIsNewest(sys, s); }
    NothingIndexed(sys, slot);
  }

  /** The assertions of the flusher and the shrinker hold whenever their step is taken, in every run. */
  lemma JobAssertionsHold(states: seq<System>, actions: seq<Action>, i: nat, step: Step)
    requires IsRun(states, actions) && i < |states| && Enabled(states[i].db, step)
    ensures var db, s := states[i].db, step.s;
            && (step.PurgeKey? ==> s !in db.storage && Version(step.k, s) in db.index)
            && (step.FlushCreate? ==> s !in db.storage && s in db.cache)
            && (step.FlushDrop? ==> s in db.storage && s in db.cache)
            && (step.ShrinkBegin? ==> s !in db.shrinking)
            && (step.ReplaceStore? ==> Maps(db.storage, s, db.jobs[s].work.previous))
            && (step.Unregister? ==> s in db.shrinking)
  {
    RunKeepsSystem(states, actions, i);
    assert SlotOk(states[i].db, step.s);
  }
}
