/**
  How often the reader starts over.  Each time, a flush or a shrink of the very slot it reads finished, or clean dropped
  its storage, after the index read that named the place now gone; so a read ends within a number of steps that these
  finished jobs bound.
*/
module ReaderRetries {
  import opened Types
  import opened StorageProtocol
  import opened ProtocolInvariant
  import opened ReaderSafety

  /** The step of a flush or a shrink that takes a place away from lookups, or the drop of a storage. */
  predicate Finishes(db: Db, step: Step) {
    || step.FlushDrop? || step.ReplaceStore? || step.DropStorage?
    || (step.FlushCreate? && CanCreate(db, step.s) && db.jobs[step.s].kept == {})
  }

  /** The action finishes a job on the slot being read. */
  ghost predicate FinishesHere(sys: System, action: Action) {
    action.Background? && Finishes(sys.db, action.step) && NewestStored(sys, action.step.s)
  }

  predicate StartsOver(sys: System, sys': System) {
    !sys.pc.Retry? && sys'.pc.Retry?
  }

  /** The reader takes a step towards its result. */
  predicate Works(sys: System, action: Action) {
    action.ReaderStep? && !sys.pc.Found? && !sys.pc.Missing?
  }

  // ----- Counting over the actions from `b` up to `i` -----

  ghost function Finished(states: seq<System>, actions: seq<Action>, b: nat, i: nat): (n: nat)
    requires b <= i <= |actions| < |states|
  {
    if i == b then 0
    else Finished(states, actions, b, i - 1) + if FinishesHere(states[i - 1], actions[i - 1]) then 1 else 0
  }

  function Retries(states: seq<System>, b: nat, i: nat): (n: nat)
    requires b <= i < |states|
  {
    if i == b then 0 else Retries(states, b, i - 1) + if StartsOver(states[i - 1], states[i]) then 1 else 0
  }

  function WorkDone(states: seq<System>, actions: seq<Action>, b: nat, i: nat): (n: nat)
    requires b <= i <= |actions| < |states|
  {
    if i == b then 0
    else WorkDone(states, actions, b, i - 1) + if Works(states[i - 1], actions[i - 1]) then 1 else 0
  }

  // ----- What is still owed -----

  /** The place the index named is gone, or may be by the time it is looked up: a job has finished since. */
  predicate Lost(sys: System) {
    var db := sys.db;
    match sys.pc
    case GetCache(slot) => slot !in db.cache
    case Lookup(slot, id, _, attempt) =>
      if attempt == 0 then !Maps(db.storage, slot, id) && !Maps(db.shrinking, slot, id)
      else if attempt == 1 then Maps(db.storage, slot, id) || !Maps(db.shrinking, slot, id)
      else true
    case _ => false
  }

  /** The steps the reader needs at most before it has a result or starts over. */
  function StepsLeft(pc: Pc): (n: nat) {
    match pc
    case ReadIndex => 5
    case Retry(_, _) => 5
    case Lookup(_, _, _, attempt) => if attempt <= 2 then 4 - attempt else 0
    case GetCache(_) => 2
    case HoldCache(_, _) => 1
    case HoldStore(_, _, _) => 1
    case _ => 0
  }

  lemma LosingHere(sys: System, step: Step)
    requires (sys.pc.GetCache? || sys.pc.Lookup?) && step.s == sys.pc.slot
    requires SlotOk(sys.db, step.s) && Enabled(sys.db, step) && !Finishes(sys.db, step) && !Lost(sys)
    ensures !Lost(sys.(db := Apply(sys.db, step)))
  {
  }

  lemma LosingElsewhere(sys: System, db': Db, s: Slot)
    requires (sys.pc.GetCache? || sys.pc.Lookup?) && s != sys.pc.slot && OnlySlot(sys.db, db', s)
    ensures Lost(sys.(db := db')) <==> Lost(sys)
  {
    assert SameSlot(sys.db, db', sys.pc.slot);
  }

  /** Only the end of a job takes a place from the reader. */
  lemma LosingTakesAJob(sys: System, step: Step)
    requires SystemOk(sys) && !sys.pc.Idle? && Enabled(sys.db, step) && !Disturbs(sys, step)
    ensures Lost(Next(sys, Background(step))) ==> Lost(sys) || FinishesHere(sys, Background(step))
  {
    if sys.pc.GetCache? || sys.pc.Lookup? {
      if step.s != sys.pc.slot {
        StepStaysInSlot(sys.db, step);
        LosingElsewhere(sys, Apply(sys.db, step), step.s);
      } else if !Lost(sys) && !Finishes(sys.db, step) {
        assert SlotOk(sys.db, step.s);
        LosingHere(sys, step);
      }
    }
  }

  /** What the index names is there. */
  lemma ResumedIsNotLost(sys: System, slot: Slot)
    requires Inv(sys.db) && Version(sys.key, slot) in sys.db.index
    ensures !Lost(Resume(sys, slot, sys.db.index[Version(sys.key, slot)]))
  {
    var v := Version(sys.key, slot);
    assert VersionOk(sys.db, v);
    if sys.db.index[v].AppendVec? { UnmovedIsInAMap(sys.db, v, sys.db.index[v].id); }
  }

  lemma IndexReadLosesNothing(sys: System)
    requires SystemOk(sys) && (sys.pc.ReadIndex? || sys.pc.Retry?)
    ensures !Lost(Advance(sys)) && !StartsOver(sys, Advance(sys))
    ensures StepsLeft(Advance(sys).pc) <= 4
  {
    forall s | LatestIndexed(sys, s) ensures !Lost(Resume(sys, s, sys.db.index[Version(sys.key, s)])) {
      ResumedIsNotLost(sys, s);
    }
  }

  /** The reader starts over only where it has lost a place. */
  lemma ReaderPays(sys: System)
    requires SystemOk(sys) && !sys.pc.Idle?
    ensures StartsOver(sys, Advance(sys)) ==> Lost(sys)
    ensures Lost(Advance(sys)) ==> Lost(sys)
    ensures Works(sys, ReaderStep) ==>
              StepsLeft(Advance(sys).pc) + 1 <= StepsLeft(sys.pc) + if StartsOver(sys, Advance(sys)) then 4 else 0
  {
    if sys.pc.ReadIndex? || sys.pc.Retry? { IndexReadLosesNothing(sys); }
  }

  // ----- One read of a run -----

  /** The read that action `b` begins is still going on in state `i`. */
  ghost predicate Reading(states: seq<System>, actions: seq<Action>, b: nat, i: nat) {
    && b < i < |states| == |actions| + 1
    && actions[b].BeginRead? && forall j :: b < j <= i ==> !states[j].pc.Idle?
  }

  ghost predicate Bounded(states: seq<System>, actions: seq<Action>, b: nat, i: nat)
    requires b <= i <= |actions| < |states|
  {
    && Retries(states, b, i) + (if Lost(states[i]) then 1 else 0) <= Finished(states, actions, b, i)
    && WorkDone(states, actions, b, i) + StepsLeft(states[i].pc) <= 5 + 4 * Retries(states, b, i)
  }

  /** What an action may cost the reader, and what it must have been paid with. */
  ghost predicate Pays(sys: System, action: Action, sys': System) {
    && (StartsOver(sys, sys') ==> Lost(sys) && !Lost(sys'))
    && (Lost(sys') ==> Lost(sys) || FinishesHere(sys, action))
    && StepsLeft(sys'.pc) + (if Works(sys, action) then 1 else 0)
       <= StepsLeft(sys.pc) + if StartsOver(sys, sys') then 4 else 0
  }

  lemma ActionPays(sys: System, action: Action)
    requires SystemOk(sys) && !sys.pc.Idle? && Allowed(sys, action) && !Next(sys, action).pc.Idle?
    ensures Pays(sys, action, Next(sys, action))
  {
    match action
    case Background(step) => LosingTakesAJob(sys, step);
    case ReaderStep => ReaderPays(sys);
    case _ =>
  }

  lemma BoundedNext(states: seq<System>, actions: seq<Action>, b: nat, i: nat)
    requires b < i <= |actions| < |states|
    requires Bounded(states, actions, b, i - 1) && Pays(states[i - 1], actions[i - 1], states[i])
    ensures Bounded(states, actions, b, i)
  {
  }

  lemma {:induction false} ReadIsBounded(states: seq<System>, actions: seq<Action>, b: nat, i: nat)
    requires IsRun(states, actions) && Reading(states, actions, b, i)
    ensures Bounded(states, actions, b, i)
    decreases i
  {
    var n := i - 1;
    assert states[n + 1] == Next(states[n], actions[n]);
    if n != b {
      ReadIsBounded(states, actions, b, n);
      RunKeepsSystem(states, actions, n);
      ActionPays(states[n], actions[n]);
      BoundedNext(states, actions, b, i);
    }
  }

  /** In every run a read starts over at most as often as jobs on its slot finish while it lasts. */
  lemma RetriesAreBounded(states: seq<System>, actions: seq<Action>, b: nat, i: nat)
    requires IsRun(states, actions) && Reading(states, actions, b, i)
    ensures Retries(states, b, i) <= Finished(states, actions, b, i)
  {
    ReadIsBounded(states, actions, b, i);
  }

  /** And it has its result after at most five steps, and four more for each job that finishes. */
  lemma ReadEnds(states: seq<System>, actions: seq<Action>, b: nat, i: nat)
    requires IsRun(states, actions) && Reading(states, actions, b, i)
    ensures WorkDone(states, actions, b, i) <= 5 + 4 * Finished(states, actions, b, i)
  {
    ReadIsBounded(states, actions, b, i);
  }
}
