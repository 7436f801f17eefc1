/** No flush and no shrink is ever stuck: from every state of every run each of them can go on to its end. */
module JobCompletion {
  import opened Types
  import opened StorageProtocol
  import opened ProtocolInvariant

  /** How many steps the job of a slot has left at most. */
  function StepsToGo(db: Db, s: Slot): (n: nat) {
    if s !in db.jobs then 0
    else match db.jobs[s]
      case Purging(superseded, kept) => |superseded| + 2 * |kept| + 5
      case Writing(work, id, todo, written, doomed) => 2 * |todo| + |written| + |doomed| + 4
      case Indexing(work, id, pending, doomed) => |pending| + |doomed| + 3
      case Replaced(id) => 1
  }

  lemma {:induction false} FreeOffset(used: set<Offset>) returns (offset: Offset)
    ensures offset !in used && forall o :: o in used ==> o < offset
    decreases |used|
  {
    if used == {} {
      offset := 0;
    } else {
      var o: Offset :| o in used;
      var above := FreeOffset(used - {o});
      offset := if o < above then above else o + 1;
      forall p | p in used ensures p < offset { assert p == o || p in used - {o}; }
    }
  }

  lemma PurgeGoesOn(db: Db, s: Slot) returns (step: Step)
    requires s in db.jobs && db.jobs[s].Purging?
    ensures step.s == s && Enabled(db, step) && StepsToGo(Apply(db, step), s) < StepsToGo(db, s)
  {
    if db.jobs[s].superseded != {} {
      var k: Pubkey :| k in db.jobs[s].superseded;
      step := PurgeKey(s, k);
    } else {
      step := FlushCreate(s);
    }
  }

  lemma WritingGoesOn(db: Db, s: Slot) returns (step: Step)
    requires SlotOk(db, s) && s in db.jobs && db.jobs[s].Writing?
    ensures step.s == s && Enabled(db, step) && StepsToGo(Apply(db, step), s) < StepsToGo(db, s)
  {
    var job := db.jobs[s];
    if job.todo != {} {
      var k: Pubkey :| k in job.todo;
      var offset := FreeOffset(db.files[job.id].Keys);
      step := CopyAccount(s, k, offset);
      assert |job.todo - {k}| == |job.todo| - 1 && |job.written[k := offset]| == |job.written| + 1;
    } else {
      step := BeginIndexing(s);
    }
  }

  lemma IndexingGoesOn(db: Db, s: Slot) returns (step: Step)
    requires SlotOk(db, s) && s in db.jobs && db.jobs[s].Indexing? && db.jobs[s].pending != map[]
    ensures step.s == s && Enabled(db, step) && StepsToGo(Apply(db, step), s) < StepsToGo(db, s)
  {
    var k: Pubkey :| k in db.jobs[s].pending;
    step := IndexAccount(s, k);
    assert |db.jobs[s].pending - {k}| == |db.jobs[s].pending| - 1;
  }

  lemma IndexedGoesOn(db: Db, s: Slot) returns (step: Step)
    requires SlotOk(db, s) && s in db.jobs && db.jobs[s].Indexing? && db.jobs[s].pending == map[]
    ensures step.s == s && Enabled(db, step) && StepsToGo(Apply(db, step), s) < StepsToGo(db, s)
  {
    var job := db.jobs[s];
    if job.work.Flush? {
      step := FlushDrop(s);
    } else if job.doomed != {} {
      var k: Pubkey :| k in job.doomed;
      step := DropZeroLamport(s, k);
    } else {
      step := ReplaceStore(s);
    }
  }

  /** A job always has a next step, and that brings it closer to its end. */
  lemma JobGoesOn(db: Db, s: Slot) returns (step: Step)
    requires Inv(db) && s in db.jobs
    ensures step.s == s && Enabled(db, step) && StepsToGo(Apply(db, step), s) < StepsToGo(db, s)
  {
    assert SlotOk(db, s);
    match db.jobs[s]
    case Purging(superseded, kept) => step := PurgeGoesOn(db, s);
    case Writing(work, id, todo, written, doomed) => step := WritingGoesOn(db, s);
    case Indexing(work, id, pending, doomed) =>
      if pending != map[] { step := IndexingGoesOn(db, s); } else { step := IndexedGoesOn(db, s); }
    case Replaced(id) => step := Unregister(s);
  }

  ghost predicate Leads(db: Db, steps: seq<Step>, db': Db)
    decreases |steps|
  {
    if steps == [] then db' == db
    else Enabled(db, steps[0]) && Leads(Apply(db, steps[0]), steps[1..], db')
  }

  /** Steps of its own lead a job to its end, whatever else is going on in the database. */
  lemma {:induction false} JobCanFinish(db: Db, s: Slot) returns (steps: seq<Step>, db': Db)
    requires Inv(db)
    ensures Leads(db, steps, db') && s !in db'.jobs && forall i :: 0 <= i < |steps| ==> steps[i].s == s
    ensures Inv(db') && |steps| <= StepsToGo(db, s)
    decreases StepsToGo(db, s)
  {
    if s !in db.jobs {
      steps, db' := [], db;
    } else {
      var step := JobGoesOn(db, s);
      StepKeepsInvariant(db, step);
      var rest;
      rest, db' := JobCanFinish(Apply(db, step), s);
      steps := [step] + rest;
      assert steps[1..] == rest;
    }
  }

  /** A storage that no index entry and no job needs can be dropped. */
  lemma UnusedStorageCanGo(db: Db, s: Slot)
    requires s in db.storage && s !in db.jobs && forall k :: Version(k, s) !in db.index
    ensures Enabled(db, DropStorage(s)) && s !in Apply(db, DropStorage(s)).storage
  {
    assert forall v :: v in db.index && v.slot == s ==> v == Version(v.key, s);
    assert IndexedAt(db, s) == {};
  }

  /** A slot that can be written to can be written to again, and the later account replaces the earlier one. */
  lemma SecondWriteReplaces(db: Db, s: Slot, k: Pubkey, first: Account, second: Account)
    requires Enabled(db, Write(s, k, first))
    ensures var once := Apply(db, Write(s, k, first));
            && Enabled(once, Write(s, k, second))
            && Apply(once, Write(s, k, second)) == Apply(db, Write(s, k, second))
            && Apply(db, Write(s, k, second)).cache[s][k] == second
  {
    var before: map<Pubkey, Account> := if s in db.cache then db.cache[s] else map[];
    assert before[k := first][k := second] == before[k := second];
    assert db.cache[s := before[k := first]][s := before[k := second]] == db.cache[s := before[k := second]];
    assert db.logical[Version(k, s) := first][Version(k, s) := second] == db.logical[Version(k, s) := second];
  }
}
