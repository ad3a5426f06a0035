/** What every interleaving of the pool's threads keeps. */
module PoolSafety {
  import opened Wrappers
  import opened PoolSteps

  // ---- the invariant, in five parts

  /** A pointer object being written by one thread is neither written nor read by another. */
  ghost predicate Exclusive(p: Pool) {
    && (forall t, u :: t != u ==> p.PcOf(t).Writes() !! p.PcOf(u).Writes() + p.PcOf(u).Reads())
    && (forall t :: p.PcOf(t).Writes() !! p.PcOf(t).Reads())
    && (forall t, h :: h in p.PcOf(t).Reads() ==> h in p.handles)
  }

  ghost predicate Locking(p: Pool) {
    forall t :: p.PcOf(t).HoldsLock() <==> p.lock == Some(t)
  }

  /** Each 8-bit count is the number of pointers whose reference it includes. */
  ghost predicate Counting(p: Pool) {
    && (forall h :: h in p.counted ==> p.PtrOf(h).Some?)
    && (forall s :: p.CountOf(s) == |p.HoldersOf(s)| <= 255)
  }

  /** Where a thread stands in an operation on a pointer, and what that says of the pointer. */
  ghost predicate PointerState(p: Pool, pc: Pc) {
    match pc
    case Idle => true
    case AllocLocked(h) => h !in p.handles
    case Building(h, _) => h !in p.handles
    case Built(h, _) => h !in p.handles
    case Returning(h) => h in p.counted
    case Acquiring(h, s, src) => h !in p.counted && p.PtrOf(h) == Some(s) && p.PtrOf(src) == Some(s)
    case Dropping(h, s, _) => h in p.counted && p.PtrOf(h) == Some(s)
    case _ => pc.h in p.handles && pc.h !in p.counted
  }

  /** Every non-null pointer is counted, except while its own operation is under way. */
  ghost predicate Pointing(p: Pool) {
    && (forall t :: PointerState(p, p.PcOf(t)))
    && (forall h :: p.PtrOf(h).Some? && p.Readable(h) ==> h in p.counted)
  }

  /** The phase a slot is in while a thread is responsible for it. */
  function OwnedPhase(pc: Pc): Phase {
    if pc.Building? then Reserved
    else if pc.Built? then Alive
    else if pc.Destroying? then Dying
    else Dead
  }

  /** Bitmap, counts, owners and life cycles agree about each slot. */
  ghost predicate SlotState(c: Config, p: Pool, s: Slot) {
    && PhaseOf(p.history, s).Some?
    && (s in p.bits ==> 0 <= s < c.n)
    && (s in p.bits <==> PhaseOf(p.history, s) != Some(Free))
    && (p.CountOf(s) > 0 ==> PhaseOf(p.history, s) == Some(Alive))
    && (s in p.bits && p.CountOf(s) == 0 ==> exists t :: p.PcOf(t).Owns(s))
    && (forall t :: p.PcOf(t).Owns(s) ==>
          p.CountOf(s) == 0 && s in p.bits && PhaseOf(p.history, s) == Some(OwnedPhase(p.PcOf(t))))
    && (forall t, u :: p.PcOf(t).Owns(s) && p.PcOf(u).Owns(s) ==> t == u)
  }

  ghost predicate Inv(c: Config, p: Pool) {
    Exclusive(p) && Locking(p) && Counting(p) && Pointing(p) && forall s :: SlotState(c, p, s)
  }

  lemma InitialInv(c: Config)
    ensures Inv(c, InitialPool())
  {
    assert forall s :: InitialPool().HoldersOf(s) == {};
  }

  // ---- a step changes nothing about the other threads

  ghost predicate OthersSame(p: Pool, q: Pool, t: Tid) {
    forall u :: u != t ==> q.PcOf(u) == p.PcOf(u)
  }

  lemma StepIsLocal(c: Config, p: Pool, t: Tid, step: Step)
    requires Enabled(c, p, t, step)
    ensures OthersSame(p, Apply(c, p, t, step), t)
  {}

  lemma LockingStep(p: Pool, q: Pool, t: Tid)
    requires Locking(p) && OthersSame(p, q, t)
    requires q.lock == Some(t) <==> q.PcOf(t).HoldsLock()
    requires q.lock == p.lock || (p.lock in {None, Some(t)} && q.lock in {None, Some(t)})
    ensures Locking(q)
  {}

  lemma KeepsLocking(c: Config, p: Pool, t: Tid, step: Step)
    requires Locking(p) && Enabled(c, p, t, step)
    ensures Locking(Apply(c, p, t, step))
  {
    StepIsLocal(c, p, t, step);
    var q := Apply(c, p, t, step);
    assert p.lock == Some(t) <==> p.PcOf(t).HoldsLock();
    LockingStep(p, q, t);
  }

  lemma ExclusiveStep(p: Pool, q: Pool, t: Tid)
    requires Exclusive(p) && OthersSame(p, q, t)
    requires forall h :: h in q.PcOf(t).Writes() ==> h in p.PcOf(t).Writes() || p.Writable(h)
    requires forall h :: h in q.PcOf(t).Reads() ==> h in p.PcOf(t).Reads() || p.Readable(h)
    requires q.PcOf(t).Writes() !! q.PcOf(t).Reads() && q.PcOf(t).Reads() <= q.handles.Keys
    requires forall h :: h in p.handles && h !in q.handles ==> h in p.PcOf(t).Writes() || p.Writable(h)
    ensures Exclusive(q)
  {
    forall u, v | u != v ensures q.PcOf(u).Writes() !! q.PcOf(v).Writes() + q.PcOf(v).Reads() {
      assert p.PcOf(u).Writes() !! p.PcOf(v).Writes() + p.PcOf(v).Reads();
    }
    forall u, h | h in q.PcOf(u).Reads() ensures h in q.handles {
      if u != t {
        assert h in p.PcOf(u).Reads() && h in p.handles;
        assert p.PcOf(t).Writes() !! p.PcOf(u).Writes() + p.PcOf(u).Reads();
      }
    }
  }

  lemma WritesAreOwn(c: Config, p: Pool, t: Tid, step: Step)
    requires Enabled(c, p, t, step)
    ensures forall h :: h in Apply(c, p, t, step).PcOf(t).Writes() ==> h in p.PcOf(t).Writes() || p.Writable(h)
  {}

  lemma ReadsAreReadable(c: Config, p: Pool, t: Tid, step: Step)
    requires Enabled(c, p, t, step)
    ensures forall h :: h in Apply(c, p, t, step).PcOf(t).Reads() ==> h in p.PcOf(t).Reads() || p.Readable(h)
  {}

  lemma ReadsApart(c: Config, p: Pool, t: Tid, step: Step)
    requires Exclusive(p) && Enabled(c, p, t, step)
    ensures var q := Apply(c, p, t, step);
            q.PcOf(t).Writes() !! q.PcOf(t).Reads() && q.PcOf(t).Reads() <= q.handles.Keys
  {
    assert p.PcOf(t).Writes() !! p.PcOf(t).Reads() && forall h :: h in p.PcOf(t).Reads() ==> h in p.handles;
    hide Exclusive;
  }

  lemma RemovedAreOwn(c: Config, p: Pool, t: Tid, step: Step)
    requires Enabled(c, p, t, step)
    ensures forall h :: h in p.handles && h !in Apply(c, p, t, step).handles ==> h in p.PcOf(t).Writes() || p.Writable(h)
  {}

  lemma KeepsExclusive(c: Config, p: Pool, t: Tid, step: Step)
    requires Exclusive(p) && Enabled(c, p, t, step)
    ensures Exclusive(Apply(c, p, t, step))
  {
    hide Exclusive, Enabled, Apply;
    StepIsLocal(c, p, t, step);
    WritesAreOwn(c, p, t, step);
    ReadsAreReadable(c, p, t, step);
    ReadsApart(c, p, t, step);
    RemovedAreOwn(c, p, t, step);
    ExclusiveStep(p, Apply(c, p, t, step), t);
  }

  // ---- counts

  lemma CountingSame(p: Pool, q: Pool)
    requires Counting(p) && q.counted == p.counted && q.counts == p.counts
    requires forall h :: h in p.counted ==> q.PtrOf(h) == p.PtrOf(h)
    ensures Counting(q)
  {
    forall s ensures q.HoldersOf(s) == p.HoldersOf(s) {}
  }

  /** One pointer joins the holders of a slot and the slot's count goes up by one. */
  lemma CountingGains(p: Pool, q: Pool, h: Handle, s: Slot)
    requires Counting(p) && h !in p.counted && q.counted == p.counted + {h} && q.PtrOf(h) == Some(s)
    requires forall g :: g in p.counted ==> q.PtrOf(g) == p.PtrOf(g)
    requires q.CountOf(s) == p.CountOf(s) + 1 <= 255
    requires forall r :: r != s ==> q.CountOf(r) == p.CountOf(r)
    ensures Counting(q)
  {
    assert q.HoldersOf(s) == p.HoldersOf(s) + {h};
    forall r | r != s ensures q.HoldersOf(r) == p.HoldersOf(r) {}
  }

  lemma CountingLoses(p: Pool, q: Pool, h: Handle, s: Slot)
    requires Counting(p) && h in p.counted && q.counted == p.counted - {h} && p.PtrOf(h) == Some(s)
    requires q.handles == p.handles
    requires q.CountOf(s) == p.CountOf(s) - 1
    requires forall r :: r != s ==> q.CountOf(r) == p.CountOf(r)
    ensures Counting(q)
  {
    assert q.HoldersOf(s) == p.HoldersOf(s) - {h};
    forall r | r != s ensures q.HoldersOf(r) == p.HoldersOf(r) {}
  }

  /** Renaming the holders by a swap of two pointer objects keeps every count. */
  lemma CountingSwapped(p: Pool, q: Pool, a: Handle, b: Handle)
    requires Counting(p) && q.counts == p.counts && q.counted == Swapped(p.counted, a, b)
    requires q.PtrOf(a) == p.PtrOf(b) && q.PtrOf(b) == p.PtrOf(a)
    requires forall h :: h != a && h != b ==> q.PtrOf(h) == p.PtrOf(h)
    ensures Counting(q)
  {
    forall s ensures |q.HoldersOf(s)| == |p.HoldersOf(s)| {
      SwappedHolders(p, q, a, b, s);
      SwappedSize(p.HoldersOf(s), a, b);
    }
    forall h | h in q.counted ensures q.PtrOf(h).Some? {
      assert h in p.counted || (h == a && b in p.counted) || (h == b && a in p.counted);
    }
  }

  lemma SwappedHolders(p: Pool, q: Pool, a: Handle, b: Handle, s: Slot)
    requires q.counted == Swapped(p.counted, a, b)
    requires q.PtrOf(a) == p.PtrOf(b) && q.PtrOf(b) == p.PtrOf(a)
    requires forall h :: h != a && h != b ==> q.PtrOf(h) == p.PtrOf(h)
    ensures q.HoldersOf(s) == Swapped(p.HoldersOf(s), a, b)
  {
    forall h ensures h in q.HoldersOf(s) <==> h in Swapped(p.HoldersOf(s), a, b) {}
  }

  lemma SwappedSize(hs: set<Handle>, a: Handle, b: Handle)
    ensures |Swapped(hs, a, b)| == |hs|
  {
    if a in hs && b !in hs {
      RenamedSize(hs, a, b);
    } else if b in hs && a !in hs {
      RenamedSize(hs, b, a);
    } else {
      assert Swapped(hs, a, b) == hs;
    }
  }

  lemma RenamedSize(hs: set<Handle>, a: Handle, b: Handle)
    requires a in hs && b !in hs
    ensures |Swapped(hs, a, b)| == |hs| && |Swapped(hs, b, a)| == |hs|
  {
    var renamed := hs - {a} + {b};
    SwappedIs(hs, a, b);
    assert |hs - {a}| == |hs| - 1 && |renamed| == |hs - {a}| + 1;
  }

  lemma SwappedIs(hs: set<Handle>, a: Handle, b: Handle)
    requires a in hs && b !in hs
    ensures Swapped(hs, a, b) == hs - {a} + {b} && Swapped(hs, b, a) == hs - {a} + {b}
  {
    forall h ensures h in Swapped(hs, a, b) <==> h in hs - {a} + {b} {}
    forall h ensures h in Swapped(hs, b, a) <==> h in hs - {a} + {b} {}
  }

  /** Steps that move no reference leave the counted pointers where they point. */
  lemma CountedStay(c: Config, p: Pool, t: Tid, step: Step)
    requires Counting(p) && PointerState(p, p.PcOf(t)) && Enabled(c, p, t, step)
    requires !step.StoreCount? && !step.FetchAdd? && !step.FetchSub? && !step.MoveConstruct? && !step.MoveAssign?
    ensures forall h :: h in p.counted ==> Apply(c, p, t, step).PtrOf(h) == p.PtrOf(h)
  {
    if step.Finish? { assert p.PcOf(t).h !in p.counted; }
  }

  lemma KeepsCounting(c: Config, p: Pool, t: Tid, step: Step)
    requires Inv(c, p) && Enabled(c, p, t, step)
    ensures Counting(Apply(c, p, t, step))
  {
    var pc, q := p.PcOf(t), Apply(c, p, t, step);
    assert PointerState(p, pc);
    if step.StoreCount? {
      StoreCountCounts(c, p, t);
    } else if step.FetchAdd? {
      FetchAddCounts(c, p, t);
    } else if step.FetchSub? {
      FetchSubCounts(c, p, t);
    } else if step.MoveConstruct? {
      assert step.h !in p.counted;
      assert MoveRecord(p.counted, step.src, step.h) == Swapped(p.counted, step.h, step.src);
      CountingSwapped(p, q, step.h, step.src);
    } else if step.MoveAssign? {
      CountingSwapped(p, q, step.h, step.src);
    } else {
      CountedStay(c, p, t, step);
      CountingSame(p, q);
    }
  }

  lemma StoreCountCounts(c: Config, p: Pool, t: Tid)
    requires Inv(c, p) && Enabled(c, p, t, StoreCount)
    ensures Counting(Apply(c, p, t, StoreCount))
  {
    var pc := p.PcOf(t);
    assert PointerState(p, pc);
    OwnedIsUncounted(c, p, t, pc.slot);
    CountingGains(p, Apply(c, p, t, StoreCount), pc.h, pc.slot);
  }

  lemma FetchAddCounts(c: Config, p: Pool, t: Tid)
    requires Counting(p) && Pointing(p) && Enabled(c, p, t, FetchAdd)
    ensures Counting(Apply(c, p, t, FetchAdd))
  {
    var pc := p.PcOf(t);
    assert PointerState(p, pc);
    CountingGains(p, Apply(c, p, t, FetchAdd), pc.h, pc.slot);
  }

  lemma FetchSubCounts(c: Config, p: Pool, t: Tid)
    requires Counting(p) && Pointing(p) && Enabled(c, p, t, FetchSub)
    ensures Counting(Apply(c, p, t, FetchSub))
  {
    var pc := p.PcOf(t);
    assert PointerState(p, pc);
    HolderIsCounted(p, pc.h, pc.slot);
    CountingLoses(p, Apply(c, p, t, FetchSub), pc.h, pc.slot);
  }

  lemma HolderIsCounted(p: Pool, h: Handle, s: Slot)
    requires Counting(p) && h in p.counted && p.PtrOf(h) == Some(s)
    ensures 1 <= p.CountOf(s) <= 255
  {
    assert h in p.HoldersOf(s);
  }

  lemma OwnedIsUncounted(c: Config, p: Pool, t: Tid, s: Slot)
    requires Inv(c, p) && p.PcOf(t).Owns(s)
    ensures p.CountOf(s) == 0
  {
    assert SlotState(c, p, s);
  }

  // ---- pointers

  /** The pointer objects a step may change. */
  function Touched(p: Pool, t: Tid, step: Step): set<Handle> {
    p.PcOf(t).Writes() +
    match step
    case BeginAllocate(h) => {h}
    case CopyConstruct(h, _) => {h}
    case MoveConstruct(h, src) => {h, src}
    case CopyAssign(h, src) => if p.PtrOf(h) == p.PtrOf(src) then {} else {h}
    case MoveAssign(h, src) => {h, src}
    case ResetPtr(h) => {h}
    case DestroyPtr(h) => {h}
    case _ => {}
  }

  lemma TouchesOnly(c: Config, p: Pool, t: Tid, step: Step)
    requires Enabled(c, p, t, step)
    ensures var q := Apply(c, p, t, step);
            forall h :: h !in Touched(p, t, step) ==>
              q.PtrOf(h) == p.PtrOf(h) && (h in q.handles <==> h in p.handles) && (h in q.counted <==> h in p.counted)
    ensures forall h :: h in Touched(p, t, step) ==> h in p.PcOf(t).Writes() || p.Writable(h)
  {}

  lemma PointingStep(p: Pool, q: Pool, t: Tid, touched: set<Handle>)
    requires Exclusive(p) && Pointing(p) && OthersSame(p, q, t)
    requires forall h :: h !in touched ==>
      q.PtrOf(h) == p.PtrOf(h) && (h in q.handles <==> h in p.handles) && (h in q.counted <==> h in p.counted)
    requires forall h :: h in touched ==> h in p.PcOf(t).Writes() || p.Writable(h)
    requires p.PcOf(t).Writes() <= touched
    requires PointerState(q, q.PcOf(t))
    requires forall h :: h in touched && q.PtrOf(h).Some? && h !in q.PcOf(t).Writes() ==> h in q.counted
    ensures Pointing(q)
  {
    forall u ensures PointerState(q, q.PcOf(u)) {
      if u != t {
        assert p.PcOf(t).Writes() !! p.PcOf(u).Writes() + p.PcOf(u).Reads();
        assert PointerState(p, p.PcOf(u));
        var pc := p.PcOf(u);
        assert !pc.Idle? ==> pc.h in pc.Writes();
        assert pc.Acquiring? ==> pc.src in pc.Reads();
      }
    }
    forall h | q.PtrOf(h).Some? && q.Readable(h) ensures h in q.counted {
      assert h !in q.PcOf(t).Writes();
      if h !in touched {
        forall u ensures h !in p.PcOf(u).Writes() { assert h !in q.PcOf(u).Writes(); }
        assert p.Readable(h);
      }
    }
  }

  /** The acting thread's own pointer is in the state its next position calls for. */
  lemma OwnPointerState(c: Config, p: Pool, t: Tid, step: Step)
    requires Exclusive(p) && Pointing(p) && Counting(p) && Enabled(c, p, t, step)
    ensures var q := Apply(c, p, t, step); PointerState(q, q.PcOf(t))
  {
    assert PointerState(p, p.PcOf(t));
  }

  lemma TouchedAreCounted(c: Config, p: Pool, t: Tid, step: Step)
    requires Exclusive(p) && Pointing(p) && Counting(p) && Enabled(c, p, t, step)
    ensures var q := Apply(c, p, t, step);
            forall h :: h in Touched(p, t, step) && q.PtrOf(h).Some? && h !in q.PcOf(t).Writes() ==> h in q.counted
  {
    if step.MoveConstruct? || step.MoveAssign? {
      MovedAreCounted(c, p, t, step);
    } else {
      OwnAreCounted(c, p, t, step);
    }
  }

  lemma MovedAreCounted(c: Config, p: Pool, t: Tid, step: Step)
    requires Pointing(p) && Enabled(c, p, t, step) && (step.MoveConstruct? || step.MoveAssign?)
    ensures var q := Apply(c, p, t, step);
            forall h :: h in Touched(p, t, step) && q.PtrOf(h).Some? ==> h in q.counted
  {
    assert p.Readable(step.h) && p.Readable(step.src);
    assert p.PtrOf(step.h).Some? ==> step.h in p.counted;
    assert p.PtrOf(step.src).Some? ==> step.src in p.counted;
    hide Pointing;
  }

  lemma OwnAreCounted(c: Config, p: Pool, t: Tid, step: Step)
    requires Pointing(p) && Enabled(c, p, t, step) && !step.MoveConstruct? && !step.MoveAssign?
    ensures var q := Apply(c, p, t, step);
            forall h :: h in Touched(p, t, step) && q.PtrOf(h).Some? && h !in q.PcOf(t).Writes() ==> h in q.counted
  {
    assert PointerState(p, p.PcOf(t));
    hide Pointing;
  }

  lemma KeepsPointing(c: Config, p: Pool, t: Tid, step: Step)
    requires Inv(c, p) && Enabled(c, p, t, step)
    ensures Pointing(Apply(c, p, t, step))
  {
    StepIsLocal(c, p, t, step);
    TouchesOnly(c, p, t, step);
    OwnPointerState(c, p, t, step);
    TouchedAreCounted(c, p, t, step);
    PointingStep(p, Apply(c, p, t, step), t, Touched(p, t, step));
  }

  // ---- slots

  lemma PhaseAfter(history: seq<Event>, e: Event, s: Slot)
    ensures PhaseOf(history + [e], s) == Advance(PhaseOf(history, s), e, s)
  {
    assert (history + [e])[..|history|] == history;
  }

  /** A slot the step does not concern keeps its state. */
  lemma SlotSame(c: Config, p: Pool, q: Pool, t: Tid, s: Slot)
    requires SlotState(c, p, s) && OthersSame(p, q, t)
    requires s in q.bits <==> s in p.bits
    requires PhaseOf(q.history, s) == PhaseOf(p.history, s)
    requires q.CountOf(s) == p.CountOf(s) || (p.CountOf(s) > 0 && q.CountOf(s) > 0)
    requires q.PcOf(t).Owns(s) <==> p.PcOf(t).Owns(s)
    requires q.PcOf(t).Owns(s) ==> OwnedPhase(q.PcOf(t)) == OwnedPhase(p.PcOf(t))
    ensures SlotState(c, q, s)
  {
    if s in q.bits && q.CountOf(s) == 0 {
      var u :| p.PcOf(u).Owns(s);
      assert q.PcOf(u).Owns(s);
    }
    forall u | q.PcOf(u).Owns(s)
      ensures q.CountOf(s) == 0 && s in q.bits && PhaseOf(q.history, s) == Some(OwnedPhase(q.PcOf(u)))
    {
      assert p.PcOf(u).Owns(s);
    }
    forall u, v | q.PcOf(u).Owns(s) && q.PcOf(v).Owns(s) ensures u == v {
      assert p.PcOf(u).Owns(s) && p.PcOf(v).Owns(s);
    }
  }

  /** The slot a thread takes over, or keeps on to the next phase. */
  lemma SlotTaken(c: Config, p: Pool, q: Pool, t: Tid, s: Slot)
    requires OthersSame(p, q, t) && 0 <= s < c.n
    requires forall u :: u != t ==> !p.PcOf(u).Owns(s)
    requires q.PcOf(t).Owns(s) && s in q.bits && q.CountOf(s) == 0
    requires PhaseOf(q.history, s) == Some(OwnedPhase(q.PcOf(t)))
    ensures SlotState(c, q, s)
  {}

  /** The slot a thread lets go of, either free again or held by pointers. */
  lemma SlotReleased(c: Config, p: Pool, q: Pool, t: Tid, s: Slot)
    requires OthersSame(p, q, t) && 0 <= s < c.n
    requires forall u :: u != t ==> !p.PcOf(u).Owns(s)
    requires !q.PcOf(t).Owns(s)
    requires if s in q.bits then q.CountOf(s) > 0 && PhaseOf(q.history, s) == Some(Alive)
             else q.CountOf(s) == 0 && PhaseOf(q.history, s) == Some(Free)
    ensures SlotState(c, q, s)
  {
    assert forall u :: !q.PcOf(u).Owns(s);
  }

  lemma FreeSlotHasNoOwner(c: Config, p: Pool, s: Slot)
    requires SlotState(c, p, s) && s !in p.bits
    ensures p.CountOf(s) == 0 && PhaseOf(p.history, s) == Some(Free) && forall u :: !p.PcOf(u).Owns(s)
  {}

  lemma OccupyFails(c: Config, p: Pool, t: Tid, s: Slot)
    requires SlotState(c, p, s) && Enabled(c, p, t, Occupy) && AllTaken(p.bits, c.n)
    ensures SlotState(c, Apply(c, p, t, Occupy), s)
  {
    StepIsLocal(c, p, t, Occupy);
    SlotSame(c, p, Apply(c, p, t, Occupy), t, s);
  }

  lemma OccupyTakes(c: Config, p: Pool, t: Tid)
    requires Enabled(c, p, t, Occupy) && !AllTaken(p.bits, c.n) && SlotState(c, p, FirstFree(p.bits, c.n))
    ensures SlotState(c, Apply(c, p, t, Occupy), FirstFree(p.bits, c.n))
  {
    var s := FirstFree(p.bits, c.n);
    StepIsLocal(c, p, t, Occupy);
    FreeSlotHasNoOwner(c, p, s);
    PhaseAfter(p.history, Occupied(s), s);
    SlotTaken(c, p, Apply(c, p, t, Occupy), t, s);
  }

  lemma OccupyElsewhere(c: Config, p: Pool, t: Tid, s: Slot)
    requires SlotState(c, p, s) && Enabled(c, p, t, Occupy)
    requires !AllTaken(p.bits, c.n) && s != FirstFree(p.bits, c.n)
    ensures SlotState(c, Apply(c, p, t, Occupy), s)
  {
    StepIsLocal(c, p, t, Occupy);
    PhaseAfter(p.history, Occupied(FirstFree(p.bits, c.n)), s);
    SlotSame(c, p, Apply(c, p, t, Occupy), t, s);
  }

  lemma OccupySlots(c: Config, p: Pool, t: Tid, s: Slot)
    requires SlotState(c, p, s) && Enabled(c, p, t, Occupy)
    ensures SlotState(c, Apply(c, p, t, Occupy), s)
  {
    if AllTaken(p.bits, c.n) {
      OccupyFails(c, p, t, s);
    } else if s == FirstFree(p.bits, c.n) {
      OccupyTakes(c, p, t);
    } else {
      OccupyElsewhere(c, p, t, s);
    }
  }

  lemma OwnerFacts(c: Config, p: Pool, t: Tid, s: Slot)
    requires SlotState(c, p, s) && p.PcOf(t).Owns(s)
    ensures 0 <= s < c.n && s in p.bits && p.CountOf(s) == 0
    ensures PhaseOf(p.history, s) == Some(OwnedPhase(p.PcOf(t)))
    ensures forall u :: u != t ==> !p.PcOf(u).Owns(s)
  {}

  predicate OwnerStep(step: Step) {
    step.Construct? || step.ConstructorThrows? || step.StoreCount? || step.DestroyObject? || step.ClearBit?
  }

  /** What the step of an owner does to the history, slot by slot. */
  lemma OwnerHistory(c: Config, p: Pool, t: Tid, step: Step, s: Slot)
    requires Enabled(c, p, t, step) && OwnerStep(step)
    ensures var q := Apply(c, p, t, step);
            PhaseOf(q.history, s) ==
            if step.StoreCount? then PhaseOf(p.history, s)
            else Advance(PhaseOf(p.history, s), q.history[|q.history| - 1], s)
    ensures p.PcOf(t).Owns(p.PcOf(t).slot)
  {
    var q := Apply(c, p, t, step);
    if !step.StoreCount? { PhaseAfter(p.history, q.history[|q.history| - 1], s); }
  }

  lemma OwnerElsewhere(c: Config, p: Pool, t: Tid, step: Step, s: Slot)
    requires SlotState(c, p, s) && Enabled(c, p, t, step) && OwnerStep(step) && s != p.PcOf(t).slot
    ensures SlotState(c, Apply(c, p, t, step), s)
  {
    hide SlotState, PhaseOf;
    StepIsLocal(c, p, t, step);
    OwnerHistory(c, p, t, step, s);
    SlotSame(c, p, Apply(c, p, t, step), t, s);
  }

  lemma OwnerAdvances(c: Config, p: Pool, t: Tid, step: Step)
    requires Enabled(c, p, t, step) && (step.Construct? || step.DestroyObject?) && SlotState(c, p, p.PcOf(t).slot)
    ensures SlotState(c, Apply(c, p, t, step), p.PcOf(t).slot)
  {
    var s := p.PcOf(t).slot;
    StepIsLocal(c, p, t, step);
    OwnerHistory(c, p, t, step, s);
    OwnerFacts(c, p, t, s);
    SlotTaken(c, p, Apply(c, p, t, step), t, s);
  }

  lemma OwnerReleases(c: Config, p: Pool, t: Tid, step: Step)
    requires Enabled(c, p, t, step) && (step.ConstructorThrows? || step.StoreCount? || step.ClearBit?)
    requires SlotState(c, p, p.PcOf(t).slot)
    ensures SlotState(c, Apply(c, p, t, step), p.PcOf(t).slot)
  {
    var s := p.PcOf(t).slot;
    StepIsLocal(c, p, t, step);
    OwnerHistory(c, p, t, step, s);
    OwnerFacts(c, p, t, s);
    SlotReleased(c, p, Apply(c, p, t, step), t, s);
  }

  /** The steps of an owner: constructing, giving up, publishing, destroying, recycling. */
  lemma OwnerSlots(c: Config, p: Pool, t: Tid, step: Step, s: Slot)
    requires Inv(c, p) && Enabled(c, p, t, step) && OwnerStep(step)
    ensures SlotState(c, Apply(c, p, t, step), s)
  {
    assert SlotState(c, p, s);
    if s != p.PcOf(t).slot {
      OwnerElsewhere(c, p, t, step, s);
    } else if step.Construct? || step.DestroyObject? {
      OwnerAdvances(c, p, t, step);
    } else {
      OwnerReleases(c, p, t, step);
    }
  }

  /** A dropped reference that was not the last one leaves the slot alive. */
  lemma ReferenceDropped(c: Config, p: Pool, t: Tid, s: Slot)
    requires SlotState(c, p, s) && Enabled(c, p, t, FetchSub)
    requires var n := p.CountOf(p.PcOf(t).slot); 2 <= n <= 255 || (n == 1 && s != p.PcOf(t).slot)
    ensures SlotState(c, Apply(c, p, t, FetchSub), s)
  {
    StepIsLocal(c, p, t, FetchSub);
    PhaseAfter(p.history, DestructionBegan(p.PcOf(t).slot), s);
    SlotSame(c, p, Apply(c, p, t, FetchSub), t, s);
  }

  /** The last reference makes its thread the owner of the slot, at the start of destruction. */
  lemma LastReferenceDropped(c: Config, p: Pool, t: Tid)
    requires Enabled(c, p, t, FetchSub) && p.CountOf(p.PcOf(t).slot) == 1 && SlotState(c, p, p.PcOf(t).slot)
    ensures SlotState(c, Apply(c, p, t, FetchSub), p.PcOf(t).slot)
  {
    var s := p.PcOf(t).slot;
    StepIsLocal(c, p, t, FetchSub);
    PhaseAfter(p.history, DestructionBegan(s), s);
    SlotTaken(c, p, Apply(c, p, t, FetchSub), t, s);
  }

  lemma FetchSubSlots(c: Config, p: Pool, t: Tid, s: Slot)
    requires Inv(c, p) && Enabled(c, p, t, FetchSub)
    ensures SlotState(c, Apply(c, p, t, FetchSub), s)
  {
    var pc := p.PcOf(t);
    assert PointerState(p, pc);
    HolderIsCounted(p, pc.h, pc.slot);
    assert SlotState(c, p, s);
    if p.CountOf(pc.slot) == 1 && s == pc.slot {
      LastReferenceDropped(c, p, t);
    } else {
      ReferenceDropped(c, p, t, s);
    }
  }

  lemma FetchAddSlots(c: Config, p: Pool, t: Tid, s: Slot)
    requires Inv(c, p) && Enabled(c, p, t, FetchAdd)
    ensures SlotState(c, Apply(c, p, t, FetchAdd), s)
  {
    var pc, q := p.PcOf(t), Apply(c, p, t, FetchAdd);
    assert PointerState(p, pc);
    SourceIsCounted(p, t);
    HolderIsCounted(p, pc.src, pc.slot);
    assert SlotState(c, p, s);
    SlotSame(c, p, q, t, s);
  }

  /** The pointer being copied keeps its own reference until the copy has one. */
  lemma SourceIsCounted(p: Pool, t: Tid)
    requires Exclusive(p) && Pointing(p) && p.PcOf(t).Acquiring?
    ensures p.PcOf(t).src in p.counted
  {
    var pc := p.PcOf(t);
    assert PointerState(p, pc);
    forall u ensures pc.src !in p.PcOf(u).Writes() {
      if u != t { assert p.PcOf(u).Writes() !! p.PcOf(t).Writes() + p.PcOf(t).Reads(); }
      assert pc.src in pc.Reads();
    }
    assert p.Readable(pc.src);
  }

  predicate SlotStep(step: Step) {
    OwnerStep(step) || step.Occupy? || step.FetchAdd? || step.FetchSub?
  }

  /** All remaining steps leave bitmap, counts, history and owners alone. */
  lemma SlotsUntouched(c: Config, p: Pool, t: Tid, step: Step)
    requires Enabled(c, p, t, step) && !SlotStep(step)
    ensures var q := Apply(c, p, t, step);
            && q.bits == p.bits && q.counts == p.counts && q.history == p.history
            && forall s :: q.PcOf(t).Owns(s) == p.PcOf(t).Owns(s)
                      && (p.PcOf(t).Owns(s) ==> OwnedPhase(q.PcOf(t)) == OwnedPhase(p.PcOf(t)))
  {}

  lemma OtherSlots(c: Config, p: Pool, t: Tid, step: Step, s: Slot)
    requires SlotState(c, p, s) && Enabled(c, p, t, step) && !SlotStep(step)
    ensures SlotState(c, Apply(c, p, t, step), s)
  {
    StepIsLocal(c, p, t, step);
    SlotsUntouched(c, p, t, step);
    SlotSame(c, p, Apply(c, p, t, step), t, s);
  }

  lemma KeepsSlots(c: Config, p: Pool, t: Tid, step: Step, s: Slot)
    requires Inv(c, p) && Enabled(c, p, t, step)
    ensures SlotState(c, Apply(c, p, t, step), s)
  {
    assert SlotState(c, p, s);
    if step.Occupy? {
      OccupySlots(c, p, t, s);
    } else if step.FetchAdd? {
      FetchAddSlots(c, p, t, s);
    } else if step.FetchSub? {
      FetchSubSlots(c, p, t, s);
    } else if OwnerStep(step) {
      OwnerSlots(c, p, t, step, s);
    } else {
      OtherSlots(c, p, t, step, s);
    }
  }

  // ---- every interleaving

  lemma StepKeepsInv(c: Config, p: Pool, t: Tid, step: Step)
    requires Inv(c, p) && Enabled(c, p, t, step)
    ensures Inv(c, Apply(c, p, t, step))
  {
    KeepsExclusive(c, p, t, step);
    KeepsLocking(c, p, t, step);
    KeepsCounting(c, p, t, step);
    KeepsPointing(c, p, t, step);
    forall s ensures SlotState(c, Apply(c, p, t, step), s) { KeepsSlots(c, p, t, step, s); }
  }

  /** The states of an interleaving: in each one some thread takes one enabled step. */
  ghost predicate IsRun(c: Config, ps: seq<Pool>, ts: seq<Tid>, steps: seq<Step>) {
    && |ps| == |steps| + 1 && |ts| == |steps| && ps[0] == InitialPool()
    && forall i :: 0 <= i < |steps| ==>
         Enabled(c, ps[i], ts[i], steps[i]) && ps[i + 1] == Apply(c, ps[i], ts[i], steps[i])
  }

  lemma {:induction false} RunKeepsInv(c: Config, ps: seq<Pool>, ts: seq<Tid>, steps: seq<Step>, i: nat)
    requires IsRun(c, ps, ts, steps) && i < |ps|
    ensures Inv(c, ps[i])
  {
    if i == 0 {
      InitialInv(c);
    } else {
      RunKeepsInv(c, ps, ts, steps, i - 1);
      StepKeepsInv(c, ps[i - 1], ts[i - 1], steps[i - 1]);
    }
  }

  // ---- what it means for the users of the pool

  function CountEvent(history: seq<Event>, e: Event): nat {
    if history == [] then 0
    else CountEvent(history[..|history| - 1], e) + (if history[|history| - 1] == e then 1 else 0)
  }

  /** A history with a phase alternates: each construction is followed by at most one destruction
      before the next one. */
  lemma {:induction false} PhaseAlternates(history: seq<Event>, s: Slot)
    requires PhaseOf(history, s).Some?
    ensures var phase := PhaseOf(history, s).value;
            && CountEvent(history, Constructed(s))
                 == CountEvent(history, DestructionBegan(s)) + (if phase == Alive then 1 else 0)
            && CountEvent(history, DestructionBegan(s))
                 == CountEvent(history, Destroyed(s)) + (if phase == Dying then 1 else 0)
            && CountEvent(history, Occupied(s))
                 == CountEvent(history, Recycled(s)) + CountEvent(history, Threw(s)) + (if phase == Free then 0 else 1)
  {
    if history != [] {
      PhaseAlternates(history[..|history| - 1], s);
    }
  }

  /** In every interleaving each slot is constructed and destroyed in turn. */
  lemma LifetimesAlternate(c: Config, ps: seq<Pool>, ts: seq<Tid>, steps: seq<Step>, i: nat, s: Slot)
    requires IsRun(c, ps, ts, steps) && i < |ps|
    ensures var built := CountEvent(ps[i].history, Constructed(s));
            var razed := CountEvent(ps[i].history, Destroyed(s));
            razed <= built <= razed + 1
    ensures PhaseOf(ps[i].history, s).Some?
  {
    RunKeepsInv(c, ps, ts, steps, i);
    assert SlotState(c, ps[i], s);
    PhaseAlternates(ps[i].history, s);
  }

  /** A slot's bit is set from the moment the slot is taken until its object is destroyed and the slot
      recycled, or its constructor has thrown. */
  lemma BitCoversLife(c: Config, ps: seq<Pool>, ts: seq<Tid>, steps: seq<Step>, i: nat, s: Slot)
    requires IsRun(c, ps, ts, steps) && i < |ps|
    ensures s in ps[i].bits <==> PhaseOf(ps[i].history, s) != Some(Free)
    ensures s in ps[i].bits ==> 0 <= s < c.n
  {
    RunKeepsInv(c, ps, ts, steps, i);
    assert SlotState(c, ps[i], s);
  }

  /** The bitmap is changed only by the thread that holds the lock. */
  lemma BitmapIsGuarded(c: Config, ps: seq<Pool>, ts: seq<Tid>, steps: seq<Step>, i: nat)
    requires IsRun(c, ps, ts, steps) && i < |steps| && ps[i + 1].bits != ps[i].bits
    ensures ps[i].lock == Some(ts[i])
  {
    RunKeepsInv(c, ps, ts, steps, i);
    assert ps[i].PcOf(ts[i]).HoldsLock();
  }

  /** A slot is handed out only when the previous object there is destroyed and recycled. */
  lemma HandOutIsFree(c: Config, ps: seq<Pool>, ts: seq<Tid>, steps: seq<Step>, i: nat)
    requires IsRun(c, ps, ts, steps) && i < |steps| && steps[i] == Occupy && !AllTaken(ps[i].bits, c.n)
    ensures var s := FirstFree(ps[i].bits, c.n);
            && PhaseOf(ps[i].history, s) == Some(Free) && ps[i].HoldersOf(s) == {}
            && forall u :: !ps[i].PcOf(u).Owns(s)
  {
    RunKeepsInv(c, ps, ts, steps, i);
    var s := FirstFree(ps[i].bits, c.n);
    assert SlotState(c, ps[i], s);
    FreeSlotHasNoOwner(c, ps[i], s);
  }

  /** A pointer at rest, or being copied from, refers to a live object. */
  lemma NoDanglingPointer(c: Config, ps: seq<Pool>, ts: seq<Tid>, steps: seq<Step>, i: nat, h: Handle)
    requires IsRun(c, ps, ts, steps) && i < |ps|
    requires ps[i].PtrOf(h).Some? && ps[i].Readable(h)
    ensures PhaseOf(ps[i].history, ps[i].PtrOf(h).value) == Some(Alive)
    ensures ps[i].PtrOf(h).value in ps[i].bits
  {
    RunKeepsInv(c, ps, ts, steps, i);
    HolderKeepsBit(c, ps[i], h);
  }

  /** Neither count update wraps: an increment meets 1 to 254, a decrement 1 to 255. */
  lemma CountsNeverWrap(c: Config, ps: seq<Pool>, ts: seq<Tid>, steps: seq<Step>, i: nat)
    requires IsRun(c, ps, ts, steps) && i < |steps|
    ensures steps[i] == FetchAdd ==> 1 <= ps[i].CountOf(ps[i].PcOf(ts[i]).slot) <= 254
    ensures steps[i] == FetchSub ==> 1 <= ps[i].CountOf(ps[i].PcOf(ts[i]).slot) <= 255
  {
    RunKeepsInv(c, ps, ts, steps, i);
    var pc := ps[i].PcOf(ts[i]);
    assert PointerState(ps[i], pc);
    if steps[i] == FetchAdd {
      SourceIsCounted(ps[i], ts[i]);
      HolderIsCounted(ps[i], pc.src, pc.slot);
    } else if steps[i] == FetchSub {
      HolderIsCounted(ps[i], pc.h, pc.slot);
    }
  }

  /** The limit of 255 pointers to one object is exact: one more reference is still counted right
      if and only if fewer than 255 are held. */
  lemma ReferenceLimitIsExact(p: Pool, h: Handle, s: Slot)
    requires Counting(p) && h !in p.counted && p.PtrOf(h) == Some(s)
    ensures var q := p.(counts := p.counts[s := (p.CountOf(s) + 1) % 256], counted := p.counted + {h});
            q.CountOf(s) == |q.HoldersOf(s)| <==> |p.HoldersOf(s)| < 255
  {
    var q := p.(counts := p.counts[s := (p.CountOf(s) + 1) % 256], counted := p.counted + {h});
    assert q.HoldersOf(s) == p.HoldersOf(s) + {h};
  }

  /** No pointer holds a reference and no thread is between taking a slot and giving it back. */
  ghost predicate Unused(p: Pool) {
    p.counted == {} && forall t, s :: !p.PcOf(t).Owns(s)
  }

  /** The pool may be destroyed (no bit set) exactly when it is unused. */
  lemma EmptyBitmapExact(c: Config, ps: seq<Pool>, ts: seq<Tid>, steps: seq<Step>, i: nat)
    requires IsRun(c, ps, ts, steps) && i < |ps|
    ensures ps[i].bits == {} <==> Unused(ps[i])
  {
    RunKeepsInv(c, ps, ts, steps, i);
    var p := ps[i];
    if Unused(p) { UnusedMeansEmpty(c, p); }
    if p.bits == {} { EmptyMeansUnused(c, p); }
  }

  lemma EmptyMeansUnused(c: Config, p: Pool)
    requires Inv(c, p) && p.bits == {}
    ensures Unused(p)
  {
    forall h ensures h !in p.counted {
      if h in p.counted { HolderKeepsBit(c, p, h); }
    }
    forall t, s ensures !p.PcOf(t).Owns(s) { assert SlotState(c, p, s) && s !in p.bits; }
  }

  lemma UnusedMeansEmpty(c: Config, p: Pool)
    requires Inv(c, p) && Unused(p)
    ensures p.bits == {}
  {
    forall s ensures s !in p.bits {
      assert p.HoldersOf(s) == {};
      assert SlotState(c, p, s);
    }
  }

  lemma HolderKeepsBit(c: Config, p: Pool, h: Handle)
    requires Inv(c, p) && h in p.counted
    ensures p.PtrOf(h).Some? && p.PtrOf(h).value in p.bits
    ensures PhaseOf(p.history, p.PtrOf(h).value) == Some(Alive)
  {
    HolderIsCounted(p, h, p.PtrOf(h).value);
    assert SlotState(c, p, p.PtrOf(h).value);
  }

  /** From `Occupy` on, thread `t` builds an object in slot `s`, and only others take steps. */
  ghost predicate BuildsDuring(c: Config, ps: seq<Pool>, ts: seq<Tid>, steps: seq<Step>, k: nat, i: nat) {
    && IsRun(c, ps, ts, steps) && k < i <= |steps|
    && steps[k] == Occupy && !AllTaken(ps[k].bits, c.n)
    && forall j :: k < j < i ==> ts[j] != ts[k]
  }

  lemma {:induction false} BitmapWaits(c: Config, ps: seq<Pool>, ts: seq<Tid>, steps: seq<Step>, k: nat, i: nat)
    requires BuildsDuring(c, ps, ts, steps, k, i)
    ensures var s := FirstFree(ps[k].bits, c.n);
            && ps[i].PcOf(ts[k]).Building? && ps[i].PcOf(ts[k]).slot == s
            && ps[i].bits == ps[k].bits + {s} && ps[i].lock == Some(ts[k])
  {
    hide Inv, FirstFree;
    if i > k + 1 {
      BitmapWaits(c, ps, ts, steps, k, i - 1);
      StepIsLocal(c, ps[i - 1], ts[i - 1], steps[i - 1]);
      if ps[i].bits != ps[i - 1].bits { BitmapIsGuarded(c, ps, ts, steps, i - 1); }
      RunKeepsInv(c, ps, ts, steps, i);
      LockIsHeld(c, ps[i], ts[k]);
    } else {
      RunKeepsInv(c, ps, ts, steps, i);
      LockIsHeld(c, ps[i], ts[k]);
    }
  }

  lemma LockIsHeld(c: Config, p: Pool, t: Tid)
    requires Inv(c, p) && p.PcOf(t).HoldsLock()
    ensures p.lock == Some(t)
  {}

  /** An allocation whose constructor throws leaves the bitmap as it found it, whatever other threads do
      meanwhile: the slot is free again, and neither a count nor a pointer knows of it. */
  lemma ThrowRestores(c: Config, ps: seq<Pool>, ts: seq<Tid>, steps: seq<Step>, k: nat, i: nat)
    requires BuildsDuring(c, ps, ts, steps, k, i) && i < |steps| && ts[i] == ts[k] && steps[i] == ConstructorThrows
    ensures ps[i + 1].bits == ps[k].bits
    ensures var s, q := FirstFree(ps[k].bits, c.n), ps[i + 1];
            && PhaseOf(q.history, s) == Some(Free) && q.HoldersOf(s) == {} && (forall u :: !q.PcOf(u).Owns(s))
            && q.counts == ps[i].counts && q.handles == ps[i].handles && q.counted == ps[i].counted
  {
    BitmapWaits(c, ps, ts, steps, k, i);
    RunKeepsInv(c, ps, ts, steps, i + 1);
    var s := FirstFree(ps[k].bits, c.n);
    assert SlotState(c, ps[i + 1], s);
    FreeSlotHasNoOwner(c, ps[i + 1], s);
  }
}
