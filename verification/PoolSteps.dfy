/** `fixed_pool` shared by threads that hold `refcnt_ptr`s into it, as a step system: one step per
    atomic operation, critical section edge or object lifetime event. */
module PoolSteps {
  import opened Wrappers

  /** A thread of control: a thread of the operating system, or the destructor or `clear()` of a pooled
      object that one is in and that uses pointers into the pool itself. */
  type Tid = int
  type Handle = int
  type Slot = int

  /** The number of slots, and whether slots hold reusable objects (handed out and `clear()`ed)
      instead of objects constructed and destroyed each time. */
  datatype Config = Config(n: nat, reusable: bool)

  /** What happens to a slot. `Constructed` stands for the hand-out and `Destroyed` for the end of
      `clear()` in a reusable pool. */
  datatype Event =
    | Occupied(slot: Slot)
    | Constructed(slot: Slot)
    | Threw(slot: Slot)
    | DestructionBegan(slot: Slot)
    | Destroyed(slot: Slot)
    | Recycled(slot: Slot)

  /** What a thread does with the pointer once the reference it held is released. */
  datatype After = SetNull | Gone | Repoint(src: Handle)

  datatype Pc =
    | Idle
    | AllocLocked(h: Handle)
    | Building(h: Handle, slot: Slot)
    | Built(h: Handle, slot: Slot)
    | Returning(h: Handle)
    | Acquiring(h: Handle, slot: Slot, src: Handle)
    | Dropping(h: Handle, slot: Slot, after: After)
    | Destroying(h: Handle, slot: Slot, after: After)
    | Clearing(h: Handle, slot: Slot, after: After)
    | ClearLocked(h: Handle, slot: Slot, after: After)
    | Dropped(h: Handle, after: After)
  {
    /** The pointer objects the thread may write. */
    function Writes(): set<Handle> {
      if Idle? then {} else {h}
    }

    /** The pointer objects the thread reads and nobody may change meanwhile. */
    function Reads(): set<Handle> {
      match this
      case Acquiring(_, _, src) => {src}
      case Dropping(_, _, after) => Sources(after)
      case Destroying(_, _, after) => Sources(after)
      case Clearing(_, _, after) => Sources(after)
      case ClearLocked(_, _, after) => Sources(after)
      case Dropped(_, after) => Sources(after)
      case _ => {}
    }

    predicate HoldsLock() {
      AllocLocked? || Building? || Built? || Returning? || ClearLocked?
    }

    /** The slot the thread alone is responsible for. */
    predicate Owns(s: Slot) {
      (Building? || Built? || Destroying? || Clearing? || ClearLocked?) && slot == s
    }
  }

  function Sources(after: After): set<Handle> {
    if after.Repoint? then {after.src} else {}
  }

  /** Shared memory (bitmap, 8-bit counts, lock), the pointer objects with their `m_object` fields,
      the threads, and two records kept for the proof: the pointers whose reference is included in
      a count, and the events so far. */
  datatype Pool = Pool(
    bits: set<Slot>,
    counts: map<Slot, nat>,
    lock: Option<Tid>,
    handles: map<Handle, Option<Slot>>,
    pcs: map<Tid, Pc>,
    counted: set<Handle>,
    history: seq<Event>)
  {
    function PcOf(t: Tid): Pc {
      if t in pcs then pcs[t] else Idle
    }

    function CountOf(s: Slot): nat {
      if s in counts then counts[s] else 0
    }

    /** The `m_object` field of a pointer object. */
    function PtrOf(h: Handle): Option<Slot> {
      if h in handles then handles[h] else None
    }

    /** The pointers whose reference is included in the count of `s`. */
    ghost function HoldersOf(s: Slot): set<Handle> {
      set h | h in counted && PtrOf(h) == Some(s)
    }

    ghost predicate Writable(h: Handle) {
      forall u :: h !in PcOf(u).Writes() && h !in PcOf(u).Reads()
    }

    ghost predicate Readable(h: Handle) {
      forall u :: h !in PcOf(u).Writes()
    }

    function At(t: Tid, pc: Pc): Pool {
      this.(pcs := pcs[t := pc])
    }

    function Log(e: Event): Pool {
      this.(history := history + [e])
    }
  }

  function InitialPool(): Pool {
    Pool({}, map[], None, map[], map[], {}, [])
  }

  datatype Step =
    | BeginAllocate(h: Handle)
    | Occupy
    | Construct
    | ConstructorThrows
    | StoreCount
    | Return
    | CopyConstruct(h: Handle, src: Handle)
    | MoveConstruct(h: Handle, src: Handle)
    | CopyAssign(h: Handle, src: Handle)
    | MoveAssign(h: Handle, src: Handle)
    | ResetPtr(h: Handle)
    | DestroyPtr(h: Handle)
    | FetchAdd
    | FetchSub
    | DestroyObject
    | LockToClear
    | ClearBit
    | Finish

  predicate AllTaken(bits: set<Slot>, n: nat) {
    forall q :: 0 <= q < n ==> q in bits
  }

  /** `bitset::occupy_zero` picks the least index that is not set. */
  ghost predicate LeastFree(bits: set<Slot>, n: nat, s: Slot) {
    0 <= s < n && s !in bits && forall q :: 0 <= q < s ==> q in bits
  }

  ghost function FirstFree(bits: set<Slot>, n: nat): (s: Slot)
    requires !AllTaken(bits, n)
    ensures LeastFree(bits, n, s)
  {
    FirstFreeFrom(bits, n, 0)
  }

  ghost function FirstFreeFrom(bits: set<Slot>, n: nat, i: nat): (s: Slot)
    requires !AllTaken(bits, n) && i <= n && forall q :: 0 <= q < i ==> q in bits
    ensures LeastFree(bits, n, s)
    decreases n - i
  {
    if i !in bits then i else FirstFreeFrom(bits, n, i + 1)
  }

  // ---- when a step may be taken

  /** The callers' side: pointer objects are created and used without data races, and none is destroyed
      while it is being copied, not even by a destructor that the copying calls; copies of one object
      number at most 255; and a pool constructor that cannot throw does not. */
  ghost predicate Enabled(c: Config, p: Pool, t: Tid, step: Step) {
    var pc := p.PcOf(t);
    match step
    case BeginAllocate(h) => pc.Idle? && p.lock.None? && h !in p.handles && p.Writable(h)
    case Occupy => pc.AllocLocked?
    case Construct => pc.Building?
    case ConstructorThrows => pc.Building? && !c.reusable
    case StoreCount => pc.Built?
    case Return => pc.Returning?
    case CopyConstruct(h, src) => pc.Idle? && h !in p.handles && p.Writable(h) && src in p.handles && p.Readable(src)
    case MoveConstruct(h, src) => pc.Idle? && h !in p.handles && p.Writable(h) && src in p.handles && p.Writable(src)
    case CopyAssign(h, src) => pc.Idle? && h in p.handles && src in p.handles &&
      (if h == src then p.Readable(h) else p.Writable(h) && p.Readable(src))
    case MoveAssign(h, src) => pc.Idle? && h in p.handles && src in p.handles && p.Writable(h) && p.Writable(src)
    case ResetPtr(h) => pc.Idle? && h in p.handles && p.Writable(h)
    case DestroyPtr(h) => pc.Idle? && h in p.handles && p.Writable(h)
    case FetchAdd => pc.Acquiring? && |p.HoldersOf(pc.slot)| < 255
    case FetchSub => pc.Dropping?
    case DestroyObject => pc.Destroying?
    case LockToClear => pc.Clearing? && p.lock.None?
    case ClearBit => pc.ClearLocked?
    case Finish => pc.Dropped?
  }

  // ---- what a step does

  /** `m_object = other.m_object` followed by the start of `acquire_ref`. */
  function PointTo(p: Pool, t: Tid, h: Handle, src: Handle): Pool {
    var q := p.(handles := p.handles[h := p.PtrOf(src)]);
    if p.PtrOf(src).Some? then q.At(t, Acquiring(h, p.PtrOf(src).value, src)) else q.At(t, Idle)
  }

  /** The start of `release_ref`, which does nothing for a null pointer. */
  function StartRelease(p: Pool, t: Tid, h: Handle, after: After): Pool {
    if p.PtrOf(h).Some? then p.At(t, Dropping(h, p.PtrOf(h).value, after)) else AfterRelease(p, t, h, after)
  }

  function AfterRelease(p: Pool, t: Tid, h: Handle, after: After): Pool {
    match after
    case SetNull => p.(handles := p.handles[h := None]).At(t, Idle)
    case Gone => p.(handles := p.handles - {h}).At(t, Idle)
    case Repoint(src) => PointTo(p, t, h, src)
  }

  function MoveRecord(counted: set<Handle>, from: Handle, to: Handle): set<Handle> {
    if from in counted then counted - {from} + {to} else counted
  }

  function Swapped(counted: set<Handle>, a: Handle, b: Handle): set<Handle> {
    counted - {a, b} + (if a in counted then {b} else {}) + (if b in counted then {a} else {})
  }

  ghost function Apply(c: Config, p: Pool, t: Tid, step: Step): Pool
    requires Enabled(c, p, t, step)
  {
    var pc := p.PcOf(t);
    match step
    case BeginAllocate(h) => p.(lock := Some(t)).At(t, AllocLocked(h))
    case Occupy =>
      if AllTaken(p.bits, c.n) then p.(lock := None, handles := p.handles[pc.h := None]).At(t, Idle)
      else
        var s := FirstFree(p.bits, c.n);
        p.(bits := p.bits + {s}).At(t, Building(pc.h, s)).Log(Occupied(s))
    case Construct => p.At(t, Built(pc.h, pc.slot)).Log(Constructed(pc.slot))
    case ConstructorThrows => p.(bits := p.bits - {pc.slot}, lock := None).At(t, Idle).Log(Threw(pc.slot))
    case StoreCount =>
      p.(counts := p.counts[pc.slot := 1], handles := p.handles[pc.h := Some(pc.slot)], counted := p.counted + {pc.h})
      .At(t, Returning(pc.h))
    case Return => p.(lock := None).At(t, Idle)
    case CopyConstruct(h, src) => PointTo(p, t, h, src)
    case MoveConstruct(h, src) =>
      p.(handles := p.handles[h := p.PtrOf(src)][src := None], counted := MoveRecord(p.counted, src, h))
    case CopyAssign(h, src) =>
      if p.PtrOf(h) == p.PtrOf(src) then p else StartRelease(p, t, h, Repoint(src))
    case MoveAssign(h, src) =>
      p.(handles := p.handles[h := p.PtrOf(src)][src := p.PtrOf(h)], counted := Swapped(p.counted, h, src))
    case ResetPtr(h) => StartRelease(p, t, h, SetNull)
    case DestroyPtr(h) => StartRelease(p, t, h, Gone)
    case FetchAdd =>
      var count := p.CountOf(pc.slot);
      p.(counts := p.counts[pc.slot := (count + 1) % 256], counted := p.counted + {pc.h}).At(t, Idle)
    case FetchSub =>
      var count := p.CountOf(pc.slot);
      var q := p.(counts := p.counts[pc.slot := (count + 255) % 256], counted := p.counted - {pc.h});
      if count == 1 then q.At(t, Destroying(pc.h, pc.slot, pc.after)).Log(DestructionBegan(pc.slot))
      else q.At(t, Dropped(pc.h, pc.after))
    case DestroyObject => p.At(t, Clearing(pc.h, pc.slot, pc.after)).Log(Destroyed(pc.slot))
    case LockToClear => p.(lock := Some(t)).At(t, ClearLocked(pc.h, pc.slot, pc.after))
    case ClearBit =>
      p.(bits := p.bits - {pc.slot}, lock := None).At(t, Dropped(pc.h, pc.after)).Log(Recycled(pc.slot))
    case Finish => AfterRelease(p, t, pc.h, pc.after)
  }

  // ---- the life cycle of a slot, read off the events alone

  datatype Phase = Free | Reserved | Alive | Dying | Dead

  /** `None` once an event came out of turn. */
  function Advance(phase: Option<Phase>, e: Event, s: Slot): Option<Phase> {
    if e.slot != s then phase else
    match (phase, e)
    case (Some(Free), Occupied(_)) => Some(Reserved)
    case (Some(Reserved), Constructed(_)) => Some(Alive)
    case (Some(Reserved), Threw(_)) => Some(Free)
    case (Some(Alive), DestructionBegan(_)) => Some(Dying)
    case (Some(Dying), Destroyed(_)) => Some(Dead)
    case (Some(Dead), Recycled(_)) => Some(Free)
    case _ => None
  }

  function PhaseOf(history: seq<Event>, s: Slot): Option<Phase> {
    if history == [] then Some(Free)
    else Advance(PhaseOf(history[..|history| - 1], s), history[|history| - 1], s)
  }
}
