/**
  Flushing a slot excludes purging it: the set of slots under contention, its mutex and its signal.

  Every step below is what one thread does while it holds the mutex, or one notification.
*/
module SlotContention {
  import opened Types
  import opened Sequences

  datatype Flusher = Resting | Flushing(slot: Slot) | Released(slot: Slot)

  /** `remaining` are the slots a purger still waits for; a sleeping purger looks again only once it is woken. */
  datatype Purger =
    | Absent
    | Waiting(slots: seq<Slot>, remaining: set<Slot>, awake: bool)
    | Purging(slots: seq<Slot>)

  datatype State = State(contended: set<Slot>, flushers: map<nat, Flusher>, purgers: map<nat, Purger>)

  datatype Step =
    | FlushEnter(t: nat, slot: Slot)
    | FlushLeave(t: nat)
    | Notify(t: nat)
    | PurgeEnter(p: nat, slots: seq<Slot>)
    | Wake(p: nat)
    | PurgeLeave(p: nat)

  function FlusherOf(st: State, t: nat): (f: Flusher) {
    if t in st.flushers then st.flushers[t] else Resting
  }

  function PurgerOf(st: State, p: nat): (q: Purger) {
    if p in st.purgers then st.purgers[p] else Absent
  }

  /** Every slot a purger was asked to remove. */
  function Wanted(q: Purger): (slots: set<Slot>) {
    if q.Absent? then {} else Members(q.slots)
  }

  ghost predicate Enabled(st: State, step: Step) {
    match step
    case FlushEnter(t, slot) => FlusherOf(st, t).Resting?
    case FlushLeave(t) => FlusherOf(st, t).Flushing?
    case Notify(t) => FlusherOf(st, t).Released?
    case PurgeEnter(p, slots) =>
      PurgerOf(st, p).Absent? && Distinct(slots) && forall q :: Wanted(PurgerOf(st, q)) !! Members(slots)
    case Wake(p) => PurgerOf(st, p).Waiting?
    case PurgeLeave(p) => PurgerOf(st, p).Purging?
  }

  function WaitFor(slots: seq<Slot>, remaining: set<Slot>): (q: Purger) {
    if remaining == {} then Purging(slots) else Waiting(slots, remaining, false)
  }

  function Woken(q: Purger): (q': Purger) {
    if q.Waiting? then q.(awake := true) else q
  }

  function Apply(st: State, step: Step): (st': State)
    requires Enabled(st, step)
  {
    match step
    case FlushEnter(t, slot) =>
      if slot in st.contended then st
      else st.(contended := st.contended + {slot}, flushers := st.flushers[t := Flushing(slot)])
    case FlushLeave(t) =>
      var slot := FlusherOf(st, t).slot;
      st.(contended := st.contended - {slot}, flushers := st.flushers[t := Released(slot)])
    case Notify(t) =>
      st.(flushers := st.flushers[t := Resting], purgers := map p | p in st.purgers :: Woken(st.purgers[p]))
    case PurgeEnter(p, slots) =>
      var remaining := Members(slots) * st.contended;
      st.(contended := st.contended + Members(slots), purgers := st.purgers[p := WaitFor(slots, remaining)])
    case Wake(p) =>
      var q := PurgerOf(st, p);
      var remaining := q.remaining * st.contended;
      st.(contended := st.contended + q.remaining, purgers := st.purgers[p := WaitFor(q.slots, remaining)])
    case PurgeLeave(p) =>
      st.(contended := st.contended - Members(PurgerOf(st, p).slots), purgers := st.purgers[p := Absent])
  }

  ghost predicate IsRun(states: seq<State>, steps: seq<Step>) {
    && |states| == |steps| + 1
    && states[0] == State({}, map[], map[])
    && (forall i :: 0 <= i < |steps| ==> Enabled(states[i], steps[i]) && states[i + 1] == Apply(states[i], steps[i]))
  }

  // ----- Ownership -----

  datatype Owner = ByFlusher(t: nat) | ByPurger(p: nat)

  /** A flusher owns the slot it flushes; a purger owns the slots it has reserved. */
  ghost predicate Owns(st: State, o: Owner, s: Slot) {
    match o
    case ByFlusher(t) => FlusherOf(st, t) == Flushing(s)
    case ByPurger(p) =>
      var q := PurgerOf(st, p);
      s in Wanted(q) && (q.Waiting? ==> s !in q.remaining)
  }

  ghost predicate OneOwner(st: State) {
    forall o, o', s :: Owns(st, o, s) && Owns(st, o', s) ==> o == o'
  }

  ghost predicate ContendedIsOwned(st: State) {
    && (forall s :: s in st.contended ==> exists o :: Owns(st, o, s))
    && (forall o, s :: Owns(st, o, s) ==> s in st.contended)
  }

  ghost predicate PurgersOk(st: State) {
    && (forall p, q :: p != q ==> Wanted(PurgerOf(st, p)) !! Wanted(PurgerOf(st, q)))
    && (forall p :: PurgerOf(st, p).Waiting? ==> {} < PurgerOf(st, p).remaining <= Members(PurgerOf(st, p).slots))
  }

  /** The purger sleeps on a slot that was released. */
  ghost predicate Oversleeps(st: State, p: nat, s: Slot) {
    PurgerOf(st, p).Waiting? && !PurgerOf(st, p).awake && s in PurgerOf(st, p).remaining && s !in st.contended
  }

  /** A sleeping purger whose slot was released will be notified. */
  ghost predicate NoLostWakeup(st: State) {
    forall p, s :: Oversleeps(st, p, s) ==> exists t :: FlusherOf(st, t) == Released(s)
  }

  ghost predicate Inv(st: State) {
    OneOwner(st) && ContendedIsOwned(st) && PurgersOk(st) && NoLostWakeup(st)
  }

  // ----- Every step keeps it -----

  /** `o` takes some free slots. */
  lemma OwnershipGrows(st: State, st': State, o: Owner, taken: set<Slot>)
    requires OneOwner(st) && ContendedIsOwned(st)
    requires taken !! st.contended && st'.contended == st.contended + taken
    requires forall x, s: Slot :: Owns(st', x, s) <==> Owns(st, x, s) || (x == o && s in taken)
    ensures OneOwner(st') && ContendedIsOwned(st')
  {
    forall s | s in st'.contended ensures exists x :: Owns(st', x, s) {
      if s in st.contended {
        var x :| Owns(st, x, s);
        assert Owns(st', x, s);
      } else {
        assert Owns(st', o, s);
      }
    }
  }

  /** `o` gives up every slot it owns. */
  lemma OwnershipEnds(st: State, st': State, o: Owner, given: set<Slot>)
    requires OneOwner(st) && ContendedIsOwned(st)
    requires (forall s: Slot :: s in given <==> Owns(st, o, s)) && st'.contended == st.contended - given
    requires forall x, s: Slot :: Owns(st', x, s) <==> Owns(st, x, s) && x != o
    ensures OneOwner(st') && ContendedIsOwned(st')
  {
    forall s | s in st'.contended ensures exists x :: Owns(st', x, s) {
      var x :| Owns(st, x, s);
      assert Owns(st', x, s);
    }
  }

  lemma FlushEnterKeeps(st: State, t: nat, slot: Slot)
    requires Inv(st) && Enabled(st, FlushEnter(t, slot))
    ensures Inv(Apply(st, FlushEnter(t, slot)))
  {
    var st' := Apply(st, FlushEnter(t, slot));
    if slot !in st.contended {
      forall p ensures PurgerOf(st', p) == PurgerOf(st, p) { }
      forall x ensures x != t ==> FlusherOf(st', x) == FlusherOf(st, x) { }
      forall x, s: Slot ensures Owns(st', x, s) <==> Owns(st, x, s) || (x == ByFlusher(t) && s in {slot}) { }
      OwnershipGrows(st, st', ByFlusher(t), {slot});
      WakeupsKept(st, st');
    }
  }

  /** A released slot stays announced until its notification. */
  lemma WakeupsKept(st: State, st': State)
    requires NoLostWakeup(st)
    requires forall t, s :: FlusherOf(st, t) == Released(s) ==> FlusherOf(st', t) == Released(s)
    requires forall p, s ::
               Oversleeps(st', p, s) ==> Oversleeps(st, p, s) || exists t :: FlusherOf(st', t) == Released(s)
    ensures NoLostWakeup(st')
  {
    forall p, s | Oversleeps(st', p, s) ensures exists t :: FlusherOf(st', t) == Released(s) {
      if Oversleeps(st, p, s) {
        var t :| FlusherOf(st, t) == Released(s);
        assert FlusherOf(st', t) == Released(s);
      }
    }
  }

  lemma FlushLeaveKeeps(st: State, t: nat)
    requires Inv(st) && Enabled(st, FlushLeave(t))
    ensures Inv(Apply(st, FlushLeave(t)))
  {
    var st' := Apply(st, FlushLeave(t));
    var slot := FlusherOf(st, t).slot;
    forall p ensures PurgerOf(st', p) == PurgerOf(st, p) { }
    forall x ensures x != t ==> FlusherOf(st', x) == FlusherOf(st, x) { }
    forall x, s: Slot ensures Owns(st', x, s) <==> Owns(st, x, s) && x != ByFlusher(t) { }
    OwnershipEnds(st, st', ByFlusher(t), {slot});
    assert FlusherOf(st', t) == Released(slot);
    WakeupsKept(st, st');
  }

  lemma NotifyKeeps(st: State, t: nat)
    requires Inv(st) && Enabled(st, Notify(t))
    ensures Inv(Apply(st, Notify(t)))
  {
    var st' := Apply(st, Notify(t));
    forall p ensures PurgerOf(st', p) == Woken(PurgerOf(st, p)) { }
    forall x ensures x != t ==> FlusherOf(st', x) == FlusherOf(st, x) { }
    forall x, s: Slot ensures Owns(st', x, s) <==> Owns(st, x, s) || (x == ByFlusher(t) && s in {}) { }
    OwnershipGrows(st, st', ByFlusher(t), {});
  }

  lemma PurgeEnterKeeps(st: State, p: nat, slots: seq<Slot>)
    requires Inv(st) && Enabled(st, PurgeEnter(p, slots))
    ensures Inv(Apply(st, PurgeEnter(p, slots)))
  {
    var st' := Apply(st, PurgeEnter(p, slots));
    forall x ensures x != p ==> PurgerOf(st', x) == PurgerOf(st, x) { }
    forall x ensures FlusherOf(st', x) == FlusherOf(st, x) { }
    var taken := Members(slots) - st.contended;
    forall x, s: Slot ensures Owns(st', x, s) <==> Owns(st, x, s) || (x == ByPurger(p) && s in taken) { }
    OwnershipGrows(st, st', ByPurger(p), taken);
    WakeupsKept(st, st');
  }

  lemma WakeKeeps(st: State, p: nat)
    requires Inv(st) && Enabled(st, Wake(p))
    ensures Inv(Apply(st, Wake(p)))
  {
    var st' := Apply(st, Wake(p));
    var q := PurgerOf(st, p);
    forall x ensures x != p ==> PurgerOf(st', x) == PurgerOf(st, x) { }
    forall x ensures FlusherOf(st', x) == FlusherOf(st, x) { }
    assert PurgerOf(st', p) == WaitFor(q.slots, q.remaining * st.contended);
    var taken := q.remaining - st.contended;
    assert forall s :: s in q.remaining && s in st.contended ==> s in q.remaining * st.contended;
    forall x, s: Slot ensures Owns(st', x, s) <==> Owns(st, x, s) || (x == ByPurger(p) && s in taken) { }
    OwnershipGrows(st, st', ByPurger(p), taken);
    WakeupsKept(st, st');
  }

  lemma PurgeLeaveKeeps(st: State, p: nat)
    requires Inv(st) && Enabled(st, PurgeLeave(p))
    ensures Inv(Apply(st, PurgeLeave(p)))
  {
    var st' := Apply(st, PurgeLeave(p));
    forall x ensures x != p ==> PurgerOf(st', x) == PurgerOf(st, x) { }
    forall x ensures FlusherOf(st', x) == FlusherOf(st, x) { }
    assert PurgerOf(st', p).Absent?;
    forall x, s: Slot ensures Owns(st', x, s) <==> Owns(st, x, s) && x != ByPurger(p) { }
    OwnershipEnds(st, st', ByPurger(p), Members(PurgerOf(st, p).slots));
    WakeupsKept(st, st');
  }

  lemma {:induction false} RunKeeps(states: seq<State>, steps: seq<Step>, i: nat)
    requires IsRun(states, steps) && i < |states|
    ensures Inv(states[i])
  {
    if i > 0 {
      RunKeeps(states, steps, i - 1);
      var st, step := states[i - 1], steps[i - 1];
      match step
      case FlushEnter(t, slot) => FlushEnterKeeps(st, t, slot);
      case FlushLeave(t) => FlushLeaveKeeps(st, t);
      case Notify(t) => NotifyKeeps(st, t);
      case PurgeEnter(p, slots) => PurgeEnterKeeps(st, p, slots);
      case Wake(p) => WakeKeeps(st, p);
      case PurgeLeave(p) => PurgeLeaveKeeps(st, p);
    }
  }

  // ----- What callers rely on, in every state of every run -----

  /** A slot under contention has exactly one owner, and only such slots are owned. */
  lemma ExactlyOneOwner(states: seq<State>, steps: seq<Step>, i: nat, s: Slot)
    requires IsRun(states, steps) && i < |states|
    ensures s in states[i].contended <==> exists o :: Owns(states[i], o, s)
    ensures forall o, o' :: Owns(states[i], o, s) && Owns(states[i], o', s) ==> o == o'
  {
    RunKeeps(states, steps, i);
  }

  /** No slot is purged while it is flushed, or by two purgers at once. */
  lemma PurgeExcludesFlush(states: seq<State>, steps: seq<Step>, i: nat, p: nat, s: Slot)
    requires IsRun(states, steps) && i < |states|
    requires PurgerOf(states[i], p).Purging? && s in Members(PurgerOf(states[i], p).slots)
    ensures forall t :: FlusherOf(states[i], t) != Flushing(s)
    ensures forall q :: q != p && PurgerOf(states[i], q).Purging? ==> s !in Members(PurgerOf(states[i], q).slots)
  {
    RunKeeps(states, steps, i);
    assert Owns(states[i], ByPurger(p), s);
    forall t ensures FlusherOf(states[i], t) != Flushing(s) {
      assert !Owns(states[i], ByFlusher(t), s);
    }
  }

  /** The assertions on release hold: a flusher finds its slot, a purger finds all of its slots, each once. */
  lemma ReleaseAssertionsHold(states: seq<State>, steps: seq<Step>, i: nat, id: nat)
    requires IsRun(states, steps) && i < |states|
    ensures FlusherOf(states[i], id).Flushing? ==> FlusherOf(states[i], id).slot in states[i].contended
    ensures PurgerOf(states[i], id).Purging? ==> Members(PurgerOf(states[i], id).slots) <= states[i].contended
  {
    RunKeeps(states, steps, i);
    if FlusherOf(states[i], id).Flushing? {
      assert Owns(states[i], ByFlusher(id), FlusherOf(states[i], id).slot);
    }
    if PurgerOf(states[i], id).Purging? {
      forall s | s in Members(PurgerOf(states[i], id).slots) ensures s in states[i].contended {
        assert Owns(states[i], ByPurger(id), s);
      }
    }
  }

  ghost predicate IsOwned(st: State, s: Slot) {
    exists o :: Owns(st, o, s)
  }

  /**
    Who owns a slot after a step: a flusher takes a slot that nobody owns and gives it back; a purger takes the slots
    nobody owns, takes more whenever it wakes, and gives all of them back.  Nobody else gains or loses any.
  */
  ghost predicate OwnsNext(st: State, step: Step, o: Owner, s: Slot)
    requires Enabled(st, step)
  {
    match step
    case FlushEnter(t, slot) => Owns(st, o, s) || (o == ByFlusher(t) && s == slot && !IsOwned(st, s))
    case FlushLeave(t) => Owns(st, o, s) && o != ByFlusher(t)
    case Notify(t) => Owns(st, o, s)
    case PurgeEnter(p, slots) => Owns(st, o, s) || (o == ByPurger(p) && s in slots && !IsOwned(st, s))
    case Wake(p) => Owns(st, o, s) || (o == ByPurger(p) && s in PurgerOf(st, p).slots && !IsOwned(st, s))
    case PurgeLeave(p) => Owns(st, o, s) && o != ByPurger(p)
  }

  /** In every state of every run the next step changes ownership in this way and no other. */
  lemma StepOwnership(states: seq<State>, steps: seq<Step>, i: nat, o: Owner, s: Slot)
    requires IsRun(states, steps) && i < |steps|
    ensures Owns(states[i + 1], o, s) <==> OwnsNext(states[i], steps[i], o, s)
  {
    RunKeeps(states, steps, i);
    assert states[i + 1] == Apply(states[i], steps[i]);
    assert s in states[i].contended <==> IsOwned(states[i], s);
    OwnershipAfter(states[i], steps[i], o, s);
  }

  lemma OwnershipAfter(st: State, step: Step, o: Owner, s: Slot)
    requires PurgersOk(st) && Enabled(st, step) && (s in st.contended <==> IsOwned(st, s))
    ensures Owns(Apply(st, step), o, s) <==> OwnsNext(st, step, o, s)
  {
    match step
    case FlushEnter(t, slot) =>
    case FlushLeave(t) =>
    case Notify(t) =>
    case PurgeEnter(p, slots) => assert s in Members(slots) <==> s in slots;
    case Wake(p) =>
      var q := PurgerOf(st, p);
      assert s in Members(q.slots) <==> s in q.slots;
      assert s in q.remaining * st.contended <==> s in q.remaining && s in st.contended;
    case PurgeLeave(p) =>
  }

  /** A flusher that gave its slot back owes a notification, and rests once it has given it. */
  lemma FlusherState(states: seq<State>, steps: seq<Step>, i: nat, t: nat)
    requires IsRun(states, steps) && i < |steps|
    ensures steps[i] == FlushLeave(t) ==> FlusherOf(states[i + 1], t) == Released(FlusherOf(states[i], t).slot)
    ensures steps[i] == Notify(t) ==> FlusherOf(states[i + 1], t).Resting?
    ensures (steps[i].FlushEnter? || steps[i].FlushLeave? || steps[i].Notify?) && steps[i].t != t ==>
              FlusherOf(states[i + 1], t) == FlusherOf(states[i], t)
  {
    assert states[i + 1] == Apply(states[i], steps[i]);
  }

  /**
    A purger purges once it owns all its slots, and waits until then.  A notification wakes all that wait; one that has
    looked again in vain sleeps until the next.
  */
  lemma PurgerState(states: seq<State>, steps: seq<Step>, i: nat, p: nat)
    requires IsRun(states, steps) && i < |states| && !PurgerOf(states[i], p).Absent?
    ensures PurgerOf(states[i], p).Purging? <==>
            forall s :: s in PurgerOf(states[i], p).slots ==> Owns(states[i], ByPurger(p), s)
    ensures i < |steps| && steps[i].Notify? && PurgerOf(states[i], p).Waiting? ==> PurgerOf(states[i + 1], p).awake
    ensures i < |steps| && steps[i] == Wake(p) && PurgerOf(states[i + 1], p).Waiting? ==>
              !PurgerOf(states[i + 1], p).awake
  {
    RunKeeps(states, steps, i);
    var q := PurgerOf(states[i], p);
    if q.Waiting? {
      var s :| s in q.remaining;
      assert s in q.slots && !Owns(states[i], ByPurger(p), s);
    }
    if i < |steps| { assert states[i + 1] == Apply(states[i], steps[i]); }
  }

  /** A purger is never stuck: once no flusher is active it has been woken, and looking again lets it purge. */
  lemma WaitingEnds(states: seq<State>, steps: seq<Step>, i: nat, p: nat)
    requires IsRun(states, steps) && i < |states|
    requires PurgerOf(states[i], p).Waiting? && forall t :: FlusherOf(states[i], t).Resting?
    ensures PurgerOf(states[i], p).awake
    ensures PurgerOf(Apply(states[i], Wake(p)), p).Purging?
  {
    RunKeeps(states, steps, i);
    var st := states[i];
    var q := PurgerOf(st, p);
    forall s | s in q.remaining && s in st.contended ensures exists t :: FlusherOf(st, t) == Flushing(s) {
      AwaitedIsFlushed(st, p, s);
    }
    assert q.remaining * st.contended == {};
    var s :| s in q.remaining;
    assert !Oversleeps(st, p, s);
  }

  /** A slot that a purger waits for is held by a flusher. */
  lemma AwaitedIsFlushed(st: State, p: nat, s: Slot)
    requires Inv(st) && PurgerOf(st, p).Waiting? && s in PurgerOf(st, p).remaining && s in st.contended
    ensures exists t :: FlusherOf(st, t) == Flushing(s)
  {
    assert s in Wanted(PurgerOf(st, p));
    forall q ensures !Owns(st, ByPurger(q), s) {
      assert q != p ==> Wanted(PurgerOf(st, p)) !! Wanted(PurgerOf(st, q));
    }
    var o :| Owns(st, o, s);
    assert o.ByFlusher?;
  }
}
