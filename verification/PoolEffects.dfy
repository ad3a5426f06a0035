/** What the operations on pointers achieve, whatever other threads do while they are under way, and that
    they come to an end. */
module PoolEffects {
  import opened Wrappers
  import opened PoolSteps
  import opened PoolSafety

  /** The steps that start an operation. */
  predicate Begins(step: Step) {
    step.BeginAllocate? || step.CopyConstruct? || step.MoveConstruct? || step.CopyAssign? || step.MoveAssign?
    || step.ResetPtr? || step.DestroyPtr?
  }

  /** `h` is a pointer object with the value `v`, and a reference it holds is counted. */
  predicate Refers(p: Pool, h: Handle, v: Option<Slot>) {
    h in p.handles && p.handles[h] == v && (v.Some? ==> h in p.counted)
  }

  /** What an operation that starts in `p` has done in `q`, where its thread is at rest again. */
  ghost predicate Achieved(c: Config, p: Pool, step: Step, q: Pool) {
    match step
    case CopyConstruct(h, src) => Refers(q, h, p.PtrOf(src)) && q.PtrOf(src) == p.PtrOf(src)
    case MoveConstruct(h, src) => Refers(q, h, p.PtrOf(src)) && Refers(q, src, None)
    case CopyAssign(h, src) => Refers(q, h, p.PtrOf(src)) && q.PtrOf(src) == p.PtrOf(src)
    case MoveAssign(h, src) => Refers(q, h, p.PtrOf(src)) && Refers(q, src, p.PtrOf(h))
    case ResetPtr(h) => Refers(q, h, None)
    case DestroyPtr(h) => h !in q.handles
    case BeginAllocate(h) =>
      if h !in q.handles then !c.reusable && q.bits == p.bits
      else if q.PtrOf(h).None? then AllTaken(p.bits, c.n) && q.bits == p.bits
      else Refers(q, h, q.PtrOf(h)) && Taking(c, p, q.PtrOf(h).value, q)
    case _ => true
  }

  ghost predicate Taking(c: Config, p: Pool, s: Slot, q: Pool) {
    LeastFree(p.bits, c.n, s) && q.bits == p.bits + {s}
  }

  /** Where its thread stands while the operation is under way, and what is settled by then. */
  ghost predicate Midway(c: Config, p: Pool, step: Step, q: Pool, pc: Pc) {
    match step
    case CopyConstruct(h, src) => Copying(p, h, src, q, pc)
    case CopyAssign(h, src) => Releasing(pc, h, Repoint(src), q, p.PtrOf(src), src) || Copying(p, h, src, q, pc)
    case ResetPtr(h) => Releasing(pc, h, SetNull, q, None, h)
    case DestroyPtr(h) => Releasing(pc, h, Gone, q, None, h)
    case BeginAllocate(h) =>
      (pc == AllocLocked(h) && h !in q.handles && q.bits == p.bits)
      || ((pc.Building? || pc.Built?) && pc.h == h && h !in q.handles && Taking(c, p, pc.slot, q))
      || (pc == Returning(h) && q.PtrOf(h).Some? && Refers(q, h, q.PtrOf(h)) && Taking(c, p, q.PtrOf(h).value, q))
    case _ => false
  }

  predicate Copying(p: Pool, h: Handle, src: Handle, q: Pool, pc: Pc) {
    pc.Acquiring? && pc.h == h && pc.src == src && h in q.handles && q.PtrOf(h) == q.PtrOf(src) == p.PtrOf(src)
  }

  predicate Releasing(pc: Pc, h: Handle, after: After, q: Pool, v: Option<Slot>, src: Handle) {
    && (pc.Dropping? || pc.Destroying? || pc.Clearing? || pc.ClearLocked? || pc.Dropped?)
    && pc.h == h && pc.after == after && (after == Repoint(src) ==> q.PtrOf(src) == v)
  }

  /** Done, or under way. */
  ghost predicate Going(c: Config, p: Pool, step: Step, q: Pool, t: Tid) {
    if q.PcOf(t).Idle? then Achieved(c, p, step, q) else Midway(c, p, step, q, q.PcOf(t))
  }

  // ---- the first step, the further ones, and those of others

  lemma StartsRelease(c: Config, p: Pool, t: Tid, step: Step)
    requires Pointing(p) && Enabled(c, p, t, step) && (step.CopyAssign? || step.ResetPtr? || step.DestroyPtr?)
    ensures Going(c, p, step, Apply(c, p, t, step), t)
  {
    if step.CopyAssign? { ReadableIsCounted(p, step.h); }
    hide Pointing;
  }

  lemma StartsOther(c: Config, p: Pool, t: Tid, step: Step)
    requires Pointing(p) && Enabled(c, p, t, step)
    requires step.BeginAllocate? || step.CopyConstruct? || step.MoveConstruct? || step.MoveAssign?
    ensures Going(c, p, step, Apply(c, p, t, step), t)
  {
    if step.MoveConstruct? || step.MoveAssign? { ReadableIsCounted(p, step.src); }
    if step.MoveAssign? { ReadableIsCounted(p, step.h); }
    hide Pointing;
  }

  lemma ReadableIsCounted(p: Pool, h: Handle)
    requires Pointing(p)
    ensures p.Readable(h) && p.PtrOf(h).Some? ==> h in p.counted
  {}

  lemma FirstStep(c: Config, p: Pool, t: Tid, step: Step)
    requires Inv(c, p) && Enabled(c, p, t, step) && Begins(step)
    ensures Going(c, p, step, Apply(c, p, t, step), t)
  {
    assert Pointing(p);
    hide Inv, Pointing, Going, Apply, Enabled;
    if step.CopyAssign? || step.ResetPtr? || step.DestroyPtr? {
      StartsRelease(c, p, t, step);
    } else {
      StartsOther(c, p, t, step);
    }
  }

  lemma AllocateStep(c: Config, p: Pool, op: Step, q: Pool, t: Tid, step: Step)
    requires op.BeginAllocate? && Enabled(c, q, t, step)
    requires !q.PcOf(t).Idle? && Midway(c, p, op, q, q.PcOf(t))
    ensures Going(c, p, op, Apply(c, q, t, step), t)
  {
    hide Copying, Releasing;
  }

  lemma CopyStep(c: Config, p: Pool, op: Step, q: Pool, t: Tid, step: Step)
    requires (op.CopyConstruct? || op.CopyAssign?) && Enabled(c, q, t, step) && PointerState(q, q.PcOf(t))
    requires Copying(p, op.h, op.src, q, q.PcOf(t))
    ensures Going(c, p, op, Apply(c, q, t, step), t)
  {
    hide PointerState;
  }

  lemma ReleaseStep(c: Config, p: Pool, op: Step, q: Pool, t: Tid, step: Step)
    requires (op.CopyAssign? || op.ResetPtr? || op.DestroyPtr?) && Enabled(c, q, t, step) && PointerState(q, q.PcOf(t))
    requires !q.PcOf(t).Idle? && !q.PcOf(t).Acquiring? && Midway(c, p, op, q, q.PcOf(t))
    ensures Going(c, p, op, Apply(c, q, t, step), t)
  {
    hide PointerState;
  }

  lemma OwnStep(c: Config, p: Pool, op: Step, q: Pool, t: Tid, step: Step)
    requires Inv(c, q) && Enabled(c, q, t, step) && Begins(op)
    requires !q.PcOf(t).Idle? && Midway(c, p, op, q, q.PcOf(t))
    ensures Going(c, p, op, Apply(c, q, t, step), t)
  {
    assert PointerState(q, q.PcOf(t));
    hide Inv, PointerState, Going, Apply, Enabled;
    if op.BeginAllocate? {
      AllocateStep(c, p, op, q, t, step);
    } else if q.PcOf(t).Acquiring? {
      CopyStep(c, p, op, q, t, step);
    } else {
      ReleaseStep(c, p, op, q, t, step);
    }
  }

  /** What is settled by then is about pointers the thread reads or writes, and the bitmap while it has the lock. */
  lemma MidwayKept(c: Config, p: Pool, op: Step, q: Pool, r: Pool, pc: Pc)
    requires Begins(op) && Midway(c, p, op, q, pc)
    requires forall h :: h in pc.Writes() + pc.Reads() ==>
      r.PtrOf(h) == q.PtrOf(h) && (h in r.handles <==> h in q.handles) && (h in r.counted <==> h in q.counted)
    requires pc.HoldsLock() ==> r.bits == q.bits
    ensures Midway(c, p, op, r, pc)
  {
    if op.CopyConstruct? || op.CopyAssign? {
      assert pc.Acquiring? ==> pc.h in pc.Writes() + pc.Reads() && pc.src in pc.Writes() + pc.Reads();
      assert Releasing(pc, op.h, Repoint(op.src), q, p.PtrOf(op.src), op.src) ==> op.src in pc.Writes() + pc.Reads();
    } else if op.BeginAllocate? {
      assert pc.h in pc.Writes() + pc.Reads();
    }
  }

  /** Another thread changes neither the pointers this one works with nor, while this one has the lock,
      the bitmap. */
  lemma OtherStep(c: Config, p: Pool, op: Step, q: Pool, t: Tid, u: Tid, step: Step)
    requires Inv(c, q) && Enabled(c, q, u, step) && u != t && Begins(op)
    requires !q.PcOf(t).Idle? && Midway(c, p, op, q, q.PcOf(t))
    ensures Going(c, p, op, Apply(c, q, u, step), t)
  {
    hide Apply, Enabled, Touched, Midway, Achieved, Exclusive, Locking, Counting, Pointing, SlotState;
    var r := Apply(c, q, u, step);
    StepIsLocal(c, q, u, step);
    TouchesOnly(c, q, u, step);
    ApartFrom(c, q, t, u, step);
    if q.PcOf(t).HoldsLock() { BitmapStays(c, q, t, u, step); }
    hide Inv;
    assert r.PcOf(t) == q.PcOf(t);
    MidwayKept(c, p, op, q, r, q.PcOf(t));
  }

  lemma ApartFrom(c: Config, q: Pool, t: Tid, u: Tid, step: Step)
    requires Exclusive(q) && Enabled(c, q, u, step) && u != t
    ensures q.PcOf(t).Writes() + q.PcOf(t).Reads() !! Touched(q, u, step)
  {
    TouchesOnly(c, q, u, step);
    assert q.PcOf(u).Writes() !! q.PcOf(t).Writes() + q.PcOf(t).Reads();
    hide Exclusive, Touched;
    forall h | h in Touched(q, u, step) ensures h !in q.PcOf(t).Writes() + q.PcOf(t).Reads() {
      assert h in q.PcOf(u).Writes() || q.Writable(h);
    }
  }

  lemma BitmapStays(c: Config, q: Pool, t: Tid, u: Tid, step: Step)
    requires Locking(q) && Enabled(c, q, u, step) && u != t && q.PcOf(t).HoldsLock()
    ensures Apply(c, q, u, step).bits == q.bits
  {}

  // ---- over whole runs

  /** From step `i`, which starts it, to state `j` the operation is under way. */
  ghost predicate UnderWay(c: Config, ps: seq<Pool>, ts: seq<Tid>, steps: seq<Step>, i: nat, j: nat) {
    && IsRun(c, ps, ts, steps) && i < j < |ps| && Begins(steps[i])
    && forall k :: i < k < j ==> !ps[k].PcOf(ts[i]).Idle?
  }

  lemma {:induction false} KeepsGoing(c: Config, ps: seq<Pool>, ts: seq<Tid>, steps: seq<Step>, i: nat, j: nat)
    requires UnderWay(c, ps, ts, steps, i, j)
    ensures Going(c, ps[i], steps[i], ps[j], ts[i])
  {
    hide Inv, Enabled, Apply, Midway, Achieved;
    RunKeepsInv(c, ps, ts, steps, j - 1);
    if j == i + 1 {
      FirstStep(c, ps[i], ts[i], steps[i]);
    } else {
      KeepsGoing(c, ps, ts, steps, i, j - 1);
      if ts[j - 1] == ts[i] {
        OwnStep(c, ps[i], steps[i], ps[j - 1], ts[i], steps[j - 1]);
      } else {
        OtherStep(c, ps[i], steps[i], ps[j - 1], ts[i], ts[j - 1], steps[j - 1]);
      }
    }
  }

  /** In every interleaving an operation has, when its thread is at rest again, done what it is for. */
  lemma OperationTakesEffect(c: Config, ps: seq<Pool>, ts: seq<Tid>, steps: seq<Step>, i: nat, j: nat)
    requires UnderWay(c, ps, ts, steps, i, j) && ps[j].PcOf(ts[i]).Idle?
    ensures Achieved(c, ps[i], steps[i], ps[j])
  {
    hide Achieved, Midway;
    KeepsGoing(c, ps, ts, steps, i, j);
  }

  /** So after an assignment from another object the pointer holds its old one no longer, and is one of the
      pointers that the count of the new one tells. */
  lemma AssignmentMovesReference(c: Config, ps: seq<Pool>, ts: seq<Tid>, steps: seq<Step>, i: nat, j: nat, s: Slot)
    requires UnderWay(c, ps, ts, steps, i, j) && ps[j].PcOf(ts[i]).Idle? && steps[i].CopyAssign?
    ensures steps[i].h in ps[j].HoldersOf(s) <==> ps[i].PtrOf(steps[i].src) == Some(s)
    ensures ps[j].CountOf(s) == |ps[j].HoldersOf(s)|
  {
    OperationTakesEffect(c, ps, ts, steps, i, j);
    RunKeepsInv(c, ps, ts, steps, j);
  }

  // ---- operations end

  /** How many steps its operation still takes a thread at most. */
  function StepsLeft(pc: Pc): nat {
    match pc
    case Idle => 0
    case AllocLocked(_) => 4
    case Building(_, _) => 3
    case Built(_, _) => 2
    case Returning(_) => 1
    case Acquiring(_, _, _) => 1
    case Dropping(_, _, _) => 6
    case Destroying(_, _, _) => 5
    case Clearing(_, _, _) => 4
    case ClearLocked(_, _, _) => 3
    case Dropped(_, _) => 2
  }

  lemma StepsCountDown(c: Config, p: Pool, t: Tid, step: Step)
    requires Enabled(c, p, t, step)
    ensures var q := Apply(c, p, t, step);
            StepsLeft(q.PcOf(t)) <= if p.PcOf(t).Idle? then 6 else StepsLeft(p.PcOf(t)) - 1
  {}

  function OwnSteps(ts: seq<Tid>, t: Tid): nat {
    if ts == [] then 0 else OwnSteps(ts[..|ts| - 1], t) + (if ts[|ts| - 1] == t then 1 else 0)
  }

  /** No operation takes its thread more than seven steps. */
  lemma {:induction false} SevenStepsAtMost(c: Config, ps: seq<Pool>, ts: seq<Tid>, steps: seq<Step>, i: nat, j: nat)
    requires UnderWay(c, ps, ts, steps, i, j)
    ensures OwnSteps(ts[i..j], ts[i]) + StepsLeft(ps[j].PcOf(ts[i])) <= 7
  {
    hide Enabled, Apply, StepsLeft;
    var u := ts[j - 1];
    assert ts[i..j][..j - i - 1] == ts[i..j - 1];
    StepIsLocal(c, ps[j - 1], u, steps[j - 1]);
    StepsCountDown(c, ps[j - 1], u, steps[j - 1]);
    if j == i + 1 {
      assert ts[i..i] == [] && ps[i].PcOf(u).Idle? by { StartsAtRest(c, ps[i], u, steps[i]); }
    } else {
      SevenStepsAtMost(c, ps, ts, steps, i, j - 1);
    }
  }

  lemma StartsAtRest(c: Config, p: Pool, t: Tid, step: Step)
    requires Enabled(c, p, t, step) && Begins(step)
    ensures p.PcOf(t).Idle?
  {}

  /** Threads never wait for each other for ever: while some operation is under way, some thread can go on with
      its own, unless a 256th pointer to one object is being made. */
  lemma SomeoneGoesOn(c: Config, ps: seq<Pool>, ts: seq<Tid>, steps: seq<Step>, i: nat, t: Tid)
    requires IsRun(c, ps, ts, steps) && i < |ps| && !ps[i].PcOf(t).Idle?
    requires forall u :: ps[i].PcOf(u).Acquiring? ==> |ps[i].HoldersOf(ps[i].PcOf(u).slot)| < 255
    ensures exists u, step :: !ps[i].PcOf(u).Idle? && Enabled(c, ps[i], u, step)
  {
    RunKeepsInv(c, ps, ts, steps, i);
    var p := ps[i];
    var u := if p.PcOf(t).Clearing? && p.lock.Some? then p.lock.value else t;
    assert p.lock == Some(u) <==> p.PcOf(u).HoldsLock();
    assert Enabled(c, p, u, NextStep(p.PcOf(u)));
  }

  function NextStep(pc: Pc): Step {
    match pc
    case Idle => Occupy
    case AllocLocked(_) => Occupy
    case Building(_, _) => Construct
    case Built(_, _) => StoreCount
    case Returning(_) => Return
    case Acquiring(_, _, _) => FetchAdd
    case Dropping(_, _, _) => FetchSub
    case Destroying(_, _, _) => DestroyObject
    case Clearing(_, _, _) => LockToClear
    case ClearLocked(_, _, _) => ClearBit
    case Dropped(_, _) => Finish
  }

  /** With nobody else at two pointers, a thread at rest may start any operation on them. */
  lemma MayStart(c: Config, p: Pool, t: Tid, h: Handle, src: Handle, next: Handle)
    requires p.PcOf(t).Idle? && h in p.handles && src in p.handles && next !in p.handles
    requires p.Writable(h) && p.Writable(src) && p.Writable(next)
    ensures p.lock.None? ==> Enabled(c, p, t, BeginAllocate(next))
    ensures Enabled(c, p, t, CopyConstruct(next, src)) && Enabled(c, p, t, MoveConstruct(next, src))
    ensures Enabled(c, p, t, CopyAssign(h, src)) && Enabled(c, p, t, MoveAssign(h, src))
    ensures Enabled(c, p, t, ResetPtr(h)) && Enabled(c, p, t, DestroyPtr(h))
  {}
}
