/** Runs of pointer operations, as one thread makes them, in a pool whose objects hold pointers themselves. */
module PoolOwnershipRuns {
  import opened Wrappers
  import opened PoolOwnership

  datatype Op =
    | Allocate(p: Ptr, slot: Slot, members: seq<Ptr>)
    | NullConstruct(p: Ptr)
    | CopyConstruct(p: Ptr, src: Ptr)
    | MoveConstruct(p: Ptr, src: Ptr)
    | CopyAssignment(p: Ptr, src: Ptr)
    | MoveAssignment(p: Ptr, src: Ptr)
    | ResetPtr(p: Ptr)
    | DestroyPtr(p: Ptr)

  /** Two pointers swap what they refer to. */
  function Swap(h: Heap, p: Ptr, q: Ptr): Heap {
    h.(fields := h.fields[p := h.Target(q)][q := h.Target(p)],
       counted := h.counted - {p, q} + (if p in h.counted then {q} else {}) + (if q in h.counted then {p} else {}))
  }

  function WithNull(h: Heap, p: Ptr): Heap {
    h.(fields := h.fields[p := None])
  }

  /** A new object, its members null at first, with its first pointer. */
  function WithObject(h: Heap, p: Ptr, slot: Slot, members: seq<Ptr>): Heap {
    Heap(h.bits + {slot}, h.counts[slot := 1], h.objects[slot := members],
         (h.fields + map m | m in members :: None)[p := Some(slot)], h.counted + {p})
  }

  function Apply(h: Heap, op: Op): Heap {
    match op
    case Allocate(p, slot, members) => WithObject(h, p, slot, members)
    case NullConstruct(p) => WithNull(h, p)
    case CopyConstruct(p, src) => Attach(h, p, h.Target(src))
    case MoveConstruct(p, src) => Swap(WithNull(h, p), p, src)
    case CopyAssignment(p, src) => CopyAssign(h, p, src)
    case MoveAssignment(p, src) => Swap(h, p, src)
    case ResetPtr(p) => Attach(Release(h, p), p, None)
    case DestroyPtr(p) => Release(h, p)
  }

  /** New pointers are new, others exist; no object is referred to more than 255 times, and no copy
      assignment destroys what it is about to copy. */
  ghost predicate Legal(h: Heap, op: Op) {
    match op
    case Allocate(p, slot, members) =>
      && p !in h.fields && p !in members && slot !in h.bits
      && NoRepeats(members) && forall m :: m in members ==> m !in h.fields
    case NullConstruct(p) => p !in h.fields
    case CopyConstruct(p, src) => p !in h.fields && Exists(h, src) && HasRoom(h, h.Target(src))
    case MoveConstruct(p, src) => p !in h.fields && Exists(h, src)
    case CopyAssignment(p, src) =>
      && Exists(h, p) && Exists(h, src)
      && (h.Target(p) != h.Target(src) ==> HasRoom(h, h.Target(src)) && Survives(h, p, h.Target(src)))
    case MoveAssignment(p, src) => Exists(h, p) && Exists(h, src)
    case ResetPtr(p) => Exists(h, p)
    case DestroyPtr(p) => Exists(h, p) && h.Loose(p)
  }

  ghost predicate HasRoom(h: Heap, target: Option<Slot>) {
    target.Some? ==> |h.Holders(target.value)| < 255
  }

  ghost predicate Survives(h: Heap, p: Ptr, target: Option<Slot>) {
    target.Some? ==> Rooted(h, {p}, target.value)
  }

  /** The members of live objects exist. */
  ghost predicate Known(h: Heap) {
    forall s, q :: h.Owns(s, q) ==> q in h.fields
  }

  ghost predicate NoCycles(h: Heap) {
    exists rank :: Acyclic(h, rank)
  }

  // ---- each operation keeps counts, bits and members right

  lemma NullKeepsInv(h: Heap, p: Ptr)
    requires Inv(h, {}) && Known(h) && p !in h.fields
    ensures Inv(WithNull(h, p), {}) && Known(WithNull(h, p))
    ensures WithNull(h, p).Loose(p) && p !in h.counted
  {
    var e := WithNull(h, p);
    forall s ensures e.Holders(s) == h.Holders(s) {}
    forall s, q ensures e.Owns(s, q) <==> h.Owns(s, q) {}
  }

  lemma SwapElsewhere(h: Heap, p: Ptr, q: Ptr, x: Ptr)
    requires x != p && x != q
    ensures var e := Swap(h, p, q);
            && (x in e.counted <==> x in h.counted) && e.Target(x) == h.Target(x) && (e.Loose(x) <==> h.Loose(x))
            && (forall y :: LeadsTo(e, x, y) <==> LeadsTo(h, x, y))
  {
    forall s, y ensures Swap(h, p, q).Owns(s, y) <==> h.Owns(s, y) {}
  }

  lemma SwapHere(h: Heap, p: Ptr, q: Ptr)
    ensures var e := Swap(h, p, q);
            && e.Target(q) == h.Target(p) && (q in e.counted <==> p in h.counted) && (e.Loose(q) <==> h.Loose(q))
            && (forall y :: LeadsTo(e, q, y) <==> LeadsTo(h, p, y))
  {
    forall s, y ensures Swap(h, p, q).Owns(s, y) <==> h.Owns(s, y) {}
  }

  lemma SwapSame(h: Heap, p: Ptr, q: Ptr)
    ensures Swap(h, p, q) == Swap(h, q, p)
  {}

  lemma Renamed(hs: set<Ptr>, after: set<Ptr>, p: Ptr, q: Ptr)
    requires forall x :: x != p && x != q ==> (x in after <==> x in hs)
    requires (p in after <==> q in hs) && (q in after <==> p in hs)
    ensures |after| == |hs|
  {
    if p in hs && q !in hs {
      OneForAnother(hs, after, p, q);
    } else if q in hs && p !in hs {
      OneForAnother(hs, after, q, p);
    } else {
      forall x ensures x in after <==> x in hs {}
      assert after == hs;
    }
  }

  lemma OneForAnother(hs: set<Ptr>, after: set<Ptr>, p: Ptr, q: Ptr)
    requires p in hs && q !in hs && p !in after && q in after
    requires forall x :: x != p && x != q ==> (x in after <==> x in hs)
    ensures |after| == |hs|
  {
    forall x ensures x in after - {q} <==> x in hs - {p} {}
    assert after - {q} == hs - {p};
    assert |after - {q}| == |after| - 1 && |hs - {p}| == |hs| - 1;
  }

  lemma SwapHolders(h: Heap, p: Ptr, q: Ptr, s: Slot)
    ensures |Swap(h, p, q).Holders(s)| == |h.Holders(s)| && (Swap(h, p, q).Holders(s) != {} <==> h.Holders(s) != {})
  {
    SwapSame(h, p, q);
    SwapHere(h, p, q);
    SwapHere(h, q, p);
    forall x | x != p && x != q ensures x in Swap(h, p, q).Holders(s) <==> x in h.Holders(s) { SwapElsewhere(h, p, q, x); }
    Renamed(h.Holders(s), Swap(h, p, q).Holders(s), p, q);
  }

  lemma SwapCounts(h: Heap, p: Ptr, q: Ptr)
    requires Counting(h, {})
    ensures Counting(Swap(h, p, q), {})
  {
    var e := Swap(h, p, q);
    assert forall s :: e.CountOf(s) == h.CountOf(s);
    assert e.objects == h.objects;
    SwapSame(h, p, q);
    SwapHere(h, p, q);
    SwapHere(h, q, p);
    forall x | x in e.counted ensures e.Target(x).Some? {
      if x != p && x != q { SwapElsewhere(h, p, q, x); }
    }
    forall s ensures |e.Holders(s)| == |h.Holders(s)| && (e.Holders(s) != {} <==> h.Holders(s) != {}) { SwapHolders(h, p, q, s); }
    hide Swap;
  }

  lemma SwapMembers(h: Heap, p: Ptr, q: Ptr)
    requires Membership(h, {}) && Exists(h, p) && Exists(h, q)
    ensures Membership(Swap(h, p, q), {})
  {
    forall s, x ensures Swap(h, p, q).Owns(s, x) <==> h.Owns(s, x) {}
  }

  lemma SwapKeeps(h: Heap, p: Ptr, q: Ptr)
    requires Inv(h, {}) && Known(h) && Exists(h, p) && Exists(h, q)
    ensures Inv(Swap(h, p, q), {}) && Known(Swap(h, p, q))
  {
    hide Counting, Membership;
    SwapCounts(h, p, q);
    SwapMembers(h, p, q);
    forall s, x ensures Swap(h, p, q).Owns(s, x) <==> h.Owns(s, x) {}
  }

  lemma ObjectHolders(h: Heap, p: Ptr, slot: Slot, members: seq<Ptr>)
    requires Counting(h, {}) && Legal(h, Allocate(p, slot, members)) && h.bits == h.objects.Keys
    ensures WithObject(h, p, slot, members).Holders(slot) == {p}
    ensures forall s :: s != slot ==> WithObject(h, p, slot, members).Holders(s) == h.Holders(s)
  {
    var e := WithObject(h, p, slot, members);
    assert h.Holders(slot) == {};
    forall x | x in h.counted ensures e.Target(x) == h.Target(x) { assert h.Target(x).Some?; }
    forall x ensures x in e.Holders(slot) <==> x == p { assert x in h.counted && h.Target(x) == Some(slot) ==> x in h.Holders(slot); }
    forall s | s != slot ensures e.Holders(s) == h.Holders(s) {}
  }

  lemma ObjectCounts(h: Heap, p: Ptr, slot: Slot, members: seq<Ptr>)
    requires Counting(h, {}) && Legal(h, Allocate(p, slot, members)) && h.bits == h.objects.Keys
    ensures Counting(WithObject(h, p, slot, members), {})
  {
    var e := WithObject(h, p, slot, members);
    ObjectHolders(h, p, slot, members);
    forall s ensures e.CountOf(s) == |e.Holders(s)| <= 255 && (s in e.objects <==> e.Holders(s) != {}) {
      if s != slot { assert e.Holders(s) == h.Holders(s); }
    }
    forall x | x in h.counted ensures e.Target(x) == h.Target(x) { assert h.Target(x).Some?; }
  }

  lemma ObjectMembers(h: Heap, p: Ptr, slot: Slot, members: seq<Ptr>)
    requires Membership(h, {}) && Known(h) && Legal(h, Allocate(p, slot, members)) && h.bits == h.objects.Keys
    ensures Membership(WithObject(h, p, slot, members), {}) && Known(WithObject(h, p, slot, members))
  {
    var e := WithObject(h, p, slot, members);
    forall s, q ensures e.Owns(s, q) <==> h.Owns(s, q) || (s == slot && q in members) {}
  }

  lemma AllocateKeeps(h: Heap, p: Ptr, slot: Slot, members: seq<Ptr>)
    requires Good(h) && Known(h) && Legal(h, Allocate(p, slot, members))
    ensures Good(WithObject(h, p, slot, members)) && Known(WithObject(h, p, slot, members))
  {
    hide Counting, Membership;
    ObjectCounts(h, p, slot, members);
    ObjectMembers(h, p, slot, members);
  }

  lemma CopyKeeps(h: Heap, p: Ptr, src: Ptr)
    requires Good(h) && Known(h) && Legal(h, CopyConstruct(p, src))
    ensures Good(Apply(h, CopyConstruct(p, src))) && Known(Apply(h, CopyConstruct(p, src)))
  {
    FreshFlies(h, p);
    if h.Target(src).Some? {
      SourceIsLive(h, src);
      AttachKeeps(h, p, h.Target(src).value);
    } else {
      AttachNull(h, p);
    }
    AttachKnown(h, p, h.Target(src));
  }

  lemma FreshFlies(h: Heap, p: Ptr)
    requires Inv(h, {}) && p !in h.fields
    ensures Inv(h, {p}) && p !in h.counted
  {}

  lemma SourceIsLive(h: Heap, src: Ptr)
    requires Inv(h, {}) && Exists(h, src) && h.Target(src).Some?
    ensures h.Target(src).value in h.objects
  {
    assert src in h.Holders(h.Target(src).value);
  }

  lemma AttachKnown(h: Heap, p: Ptr, target: Option<Slot>)
    requires Known(h)
    ensures Known(Attach(h, p, target))
  {
    forall s, q ensures Attach(h, p, target).Owns(s, q) <==> h.Owns(s, q) {}
  }

  lemma ReleaseKnown(h: Heap, p: Ptr, rank: Slot -> nat)
    requires Good(h) && Known(h) && Acyclic(h, rank) && Exists(h, p)
    ensures Known(Release(h, p)) && Inv(Release(h, p), {p}) && Release(h, p).bits == Release(h, p).objects.Keys
  {
    if h.Target(p).Some? { ReleasedKeeps(h, p, rank); } else { NullKeeps(h, p); }
    forall s, q | Release(h, p).Owns(s, q) ensures h.Owns(s, q) {}
  }

  lemma StepKeeps(h: Heap, op: Op, rank: Slot -> nat)
    requires Good(h) && Known(h) && Acyclic(h, rank) && Legal(h, op)
    ensures Good(Apply(h, op)) && Known(Apply(h, op))
  {
    hide Inv, Known, Acyclic, Rooted, Legal, WithObject, Swap, WithNull, Attach, Release;
    match op
    case Allocate(p, slot, members) => AllocateKeeps(h, p, slot, members);
    case NullConstruct(p) => NullStep(h, p);
    case CopyConstruct(p, src) => CopyKeeps(h, p, src);
    case MoveConstruct(p, src) => MoveStep(h, p, src);
    case CopyAssignment(p, src) => AssignStep(h, p, src, rank);
    case MoveAssignment(p, src) => SwapStep(h, p, src);
    case ResetPtr(p) => ResetStep(h, p, rank);
    case DestroyPtr(p) => DestroyStep(h, p, rank);
  }

  lemma NullStep(h: Heap, p: Ptr)
    requires Good(h) && Known(h) && Legal(h, NullConstruct(p))
    ensures Good(WithNull(h, p)) && Known(WithNull(h, p))
  {
    NullKeepsInv(h, p);
  }

  lemma SwapStep(h: Heap, p: Ptr, src: Ptr)
    requires Good(h) && Known(h) && Legal(h, MoveAssignment(p, src))
    ensures Good(Swap(h, p, src)) && Known(Swap(h, p, src))
  {
    SwapKeeps(h, p, src);
  }

  lemma MoveStep(h: Heap, p: Ptr, src: Ptr)
    requires Good(h) && Known(h) && Legal(h, MoveConstruct(p, src))
    ensures Good(Swap(WithNull(h, p), p, src)) && Known(Swap(WithNull(h, p), p, src))
  {
    NullKeepsInv(h, p);
    SwapKeeps(WithNull(h, p), p, src);
  }

  lemma AssignStep(h: Heap, p: Ptr, src: Ptr, rank: Slot -> nat)
    requires Good(h) && Known(h) && Acyclic(h, rank) && Legal(h, CopyAssignment(p, src))
    ensures Good(CopyAssign(h, p, src)) && Known(CopyAssign(h, p, src))
  {
    if h.Target(p) != h.Target(src) {
      CopyAssignExact(h, p, src, rank);
      ReleaseKnown(h, p, rank);
      AttachKnown(Release(h, p), p, Release(h, p).Target(src));
    }
  }

  lemma ResetStep(h: Heap, p: Ptr, rank: Slot -> nat)
    requires Good(h) && Known(h) && Acyclic(h, rank) && Legal(h, ResetPtr(p))
    ensures Good(Attach(Release(h, p), p, None)) && Known(Attach(Release(h, p), p, None))
  {
    ReleaseKnown(h, p, rank);
    AttachNull(Release(h, p), p);
    AttachKnown(Release(h, p), p, None);
  }

  lemma DestroyStep(h: Heap, p: Ptr, rank: Slot -> nat)
    requires Good(h) && Known(h) && Acyclic(h, rank) && Legal(h, DestroyPtr(p))
    ensures Good(Release(h, p)) && Known(Release(h, p))
  {
    DestroyKeepsGood(h, p, rank);
    ReleaseKnown(h, p, rank);
  }

  // ---- whole runs

  function Nothing(): Heap {
    Heap({}, map[], map[], map[], {})
  }

  /** The heaps of a run: each operation legal where it starts, and no cycle of pointers at any time. */
  ghost predicate IsRun(hs: seq<Heap>, ops: seq<Op>) {
    && |hs| == |ops| + 1 && hs[0] == Nothing()
    && (forall i :: 0 <= i < |hs| ==> NoCycles(hs[i]))
    && forall i :: 0 <= i < |ops| ==> Legal(hs[i], ops[i]) && hs[i + 1] == Apply(hs[i], ops[i])
  }

  lemma NothingIsGood()
    ensures Good(Nothing()) && Known(Nothing())
  {
    forall s ensures Nothing().Holders(s) == {} {}
  }

  lemma {:induction false} RunKeepsGood(hs: seq<Heap>, ops: seq<Op>, i: nat)
    requires IsRun(hs, ops) && i < |hs|
    ensures Good(hs[i]) && Known(hs[i])
  {
    if i == 0 {
      NothingIsGood();
    } else {
      RunKeepsGood(hs, ops, i - 1);
      var rank :| Acyclic(hs[i - 1], rank);
      StepKeeps(hs[i - 1], ops[i - 1], rank);
    }
  }

  // ---- what an operation does

  /** The pointers that an operation is about, and those it makes. */
  function Named(op: Op): set<Ptr> {
    match op
    case Allocate(p, _, members) => {p} + set m | m in members
    case MoveConstruct(p, src) => {p, src}
    case MoveAssignment(p, src) => {p, src}
    case NullConstruct(p) => {p}
    case CopyConstruct(p, _) => {p}
    case CopyAssignment(p, _) => {p}
    case ResetPtr(p) => {p}
    case DestroyPtr(p) => {p}
  }

  /** A pointer in existence with the value. */
  ghost predicate RefersTo(r: Heap, p: Ptr, target: Option<Slot>) {
    Exists(r, p) && r.Target(p) == target
  }

  ghost predicate Did(h: Heap, op: Op, r: Heap) {
    match op
    case Allocate(p, slot, members) =>
      && RefersTo(r, p, Some(slot)) && r.Holders(slot) == {p} && r.bits == h.bits + {slot}
      && slot in r.objects && r.objects[slot] == members && forall m :: m in members ==> RefersTo(r, m, None)
    case NullConstruct(p) => RefersTo(r, p, None)
    case CopyConstruct(p, src) => RefersTo(r, p, h.Target(src)) && r.Target(src) == h.Target(src)
    case MoveConstruct(p, src) => RefersTo(r, p, h.Target(src)) && RefersTo(r, src, None)
    case CopyAssignment(p, src) => RefersTo(r, p, h.Target(src)) && r.Target(src) == h.Target(src)
    case MoveAssignment(p, src) => RefersTo(r, p, h.Target(src)) && RefersTo(r, src, h.Target(p))
    case ResetPtr(p) => RefersTo(r, p, None)
    case DestroyPtr(p) => p !in r.counted
  }

  /** Other pointers keep what they refer to, and lose their reference at most as members of a destroyed object. */
  ghost predicate LeavesOthers(h: Heap, op: Op, r: Heap) {
    forall x :: x !in Named(op) ==>
      && r.Target(x) == h.Target(x) && (x in r.counted ==> x in h.counted)
      && (x in h.counted && h.Loose(x) ==> x in r.counted)
  }

  lemma ReleaseLeaves(h: Heap, p: Ptr, rank: Slot -> nat)
    requires Good(h) && Acyclic(h, rank) && Exists(h, p)
    ensures var r := Release(h, p);
            && r.fields == h.fields && p !in r.counted
            && forall x :: x != p ==> (x in r.counted ==> x in h.counted) && (x in h.counted && h.Loose(x) ==> x in r.counted)
  {
    if h.Target(p).Some? { ReleasedKeeps(h, p, rank); } else { NullKeeps(h, p); }
  }

  /** Every operation of a run has the effect on its pointers that it is for, and on no others. */
  lemma OperationDoes(h: Heap, op: Op, rank: Slot -> nat)
    requires Good(h) && Known(h) && Acyclic(h, rank) && Legal(h, op)
    ensures Did(h, op, Apply(h, op)) && LeavesOthers(h, op, Apply(h, op))
  {
    hide Good, Inv, Known, Acyclic, Did, LeavesOthers, Apply, Swap, WithNull, RefersTo, HasRoom, Survives;
    match op
    case Allocate(p, slot, members) => AllocateDoes(h, p, slot, members);
    case CopyAssignment(p, src) => AssignDoes(h, p, src, rank);
    case ResetPtr(_) => EndsDoes(h, op, rank);
    case DestroyPtr(_) => EndsDoes(h, op, rank);
    case NullConstruct(p) =>
      NewIsUncounted(h, p);
      NullDoes(h, p);
      ByName(h, op);
    case CopyConstruct(p, src) => CopyDoes(h, p, src);
    case MoveConstruct(p, src) =>
      NewIsUncounted(h, p);
      MoveDoes(h, p, src);
      ByName(h, op);
    case MoveAssignment(p, src) =>
      SwapDoes(h, p, src);
      ByName(h, op);
  }

  lemma ByName(h: Heap, op: Op)
    ensures op.NullConstruct? ==> Apply(h, op) == WithNull(h, op.p) && (Did(h, op, Apply(h, op)) <==> RefersTo(WithNull(h, op.p), op.p, None))
    ensures op.MoveAssignment? ==> Apply(h, op) == Swap(h, op.p, op.src)
    ensures op.MoveAssignment? ==> (Did(h, op, Apply(h, op))
              <==> RefersTo(Apply(h, op), op.p, h.Target(op.src)) && RefersTo(Apply(h, op), op.src, h.Target(op.p)))
    ensures op.MoveConstruct? ==> Apply(h, op) == Swap(WithNull(h, op.p), op.p, op.src)
    ensures op.MoveConstruct? ==> (Did(h, op, Apply(h, op))
              <==> RefersTo(Apply(h, op), op.p, h.Target(op.src)) && RefersTo(Apply(h, op), op.src, None))
  {
    hide Swap, WithNull, RefersTo, Release, Attach, CopyAssign, WithObject;
  }

  lemma NewIsUncounted(h: Heap, p: Ptr)
    requires Good(h) && p !in h.fields
    ensures p !in h.counted
  {}

  lemma CopyDoes(h: Heap, p: Ptr, src: Ptr)
    requires Legal(h, CopyConstruct(p, src))
    ensures var op := CopyConstruct(p, src); Did(h, op, Apply(h, op)) && LeavesOthers(h, op, Apply(h, op))
  {
    hide HasRoom, CopyAssign, Release, WithObject, Swap, WithNull;
  }

  lemma SwapDoes(h: Heap, p: Ptr, src: Ptr)
    requires Exists(h, p) && Exists(h, src)
    ensures RefersTo(Swap(h, p, src), p, h.Target(src)) && RefersTo(Swap(h, p, src), src, h.Target(p))
    ensures LeavesOthers(h, MoveAssignment(p, src), Swap(h, p, src))
  {}

  lemma NullDoes(h: Heap, p: Ptr)
    requires p !in h.counted
    ensures RefersTo(WithNull(h, p), p, None) && LeavesOthers(h, NullConstruct(p), WithNull(h, p))
  {}

  lemma MoveDoes(h: Heap, p: Ptr, src: Ptr)
    requires p !in h.fields && p !in h.counted && Exists(h, src)
    ensures var r := Swap(WithNull(h, p), p, src);
            RefersTo(r, p, h.Target(src)) && RefersTo(r, src, None) && LeavesOthers(h, MoveConstruct(p, src), r)
  {
    SwapDoes(WithNull(h, p), p, src);
    NullDoes(h, p);
    hide Swap, RefersTo;
    forall s, q ensures WithNull(h, p).Owns(s, q) <==> h.Owns(s, q) {}
  }

  lemma AssignDoes(h: Heap, p: Ptr, src: Ptr, rank: Slot -> nat)
    requires Good(h) && Acyclic(h, rank) && Legal(h, CopyAssignment(p, src))
    ensures var op := CopyAssignment(p, src); Did(h, op, Apply(h, op)) && LeavesOthers(h, op, Apply(h, op))
  {
    ReleaseLeaves(h, p, rank);
    hide Good, Acyclic, Release, HasRoom, Survives;
    var op := CopyAssignment(p, src);
    assert Apply(h, op) == CopyAssign(h, p, src);
    if h.Target(p) != h.Target(src) {
      AttachDoes(h, Release(h, p), p, src);
    }
    hide Attach, LeavesOthers;
  }

  lemma AttachDoes(h: Heap, g: Heap, p: Ptr, src: Ptr)
    requires g.fields == h.fields && p in h.fields && src in h.fields && (p == src ==> h.Target(p).None?)
    requires p !in g.counted || h.Target(src).Some?
    requires forall x :: x != p ==> (x in g.counted ==> x in h.counted) && (x in h.counted && h.Loose(x) ==> x in g.counted)
    ensures var r := Attach(g, p, g.Target(src));
            RefersTo(r, p, h.Target(src)) && r.Target(src) == h.Target(src) && LeavesOthers(h, CopyAssignment(p, src), r)
  {}

  lemma EndsDoes(h: Heap, op: Op, rank: Slot -> nat)
    requires Good(h) && Acyclic(h, rank) && Legal(h, op) && (op.ResetPtr? || op.DestroyPtr?)
    ensures Did(h, op, Apply(h, op)) && LeavesOthers(h, op, Apply(h, op))
  {
    ReleaseLeaves(h, op.p, rank);
    hide Good, Acyclic, Release;
  }

  lemma AllocateDoes(h: Heap, p: Ptr, slot: Slot, members: seq<Ptr>)
    requires Good(h) && Known(h) && Legal(h, Allocate(p, slot, members))
    ensures var op := Allocate(p, slot, members); Did(h, op, Apply(h, op)) && LeavesOthers(h, op, Apply(h, op))
  {
    OnlyHolder(h, p, slot, members);
    MembersAreNull(h, p, slot, members);
    OthersStay(h, p, slot, members);
    hide Good, Known, Legal, WithObject, LeavesOthers;
    assert Apply(h, Allocate(p, slot, members)) == WithObject(h, p, slot, members);
  }

  lemma OnlyHolder(h: Heap, p: Ptr, slot: Slot, members: seq<Ptr>)
    requires Good(h) && Legal(h, Allocate(p, slot, members))
    ensures var r := WithObject(h, p, slot, members);
            && RefersTo(r, p, Some(slot)) && r.Holders(slot) == {p}
            && r.bits == h.bits + {slot} && slot in r.objects && r.objects[slot] == members
  {
    var r := WithObject(h, p, slot, members);
    NoneHeld(h, slot);
    forall q | q in r.Holders(slot) && q != p ensures q in h.Holders(slot) { HeldBefore(h, p, slot, members, q); }
    assert p in r.Holders(slot);
  }

  lemma NoneHeld(h: Heap, slot: Slot)
    requires Good(h) && slot !in h.bits
    ensures h.Holders(slot) == {}
  {}

  lemma HeldBefore(h: Heap, p: Ptr, slot: Slot, members: seq<Ptr>, q: Ptr)
    requires Good(h) && (forall m :: m in members ==> m !in h.fields)
    requires q != p && q in WithObject(h, p, slot, members).Holders(slot)
    ensures q in h.Holders(slot)
  {
    assert q in h.counted && h.Target(q).Some?;
  }

  lemma MembersAreNull(h: Heap, p: Ptr, slot: Slot, members: seq<Ptr>)
    requires Legal(h, Allocate(p, slot, members))
    ensures forall m :: m in members ==> RefersTo(WithObject(h, p, slot, members), m, None)
  {}

  lemma OthersStay(h: Heap, p: Ptr, slot: Slot, members: seq<Ptr>)
    requires Legal(h, Allocate(p, slot, members))
    ensures LeavesOthers(h, Allocate(p, slot, members), WithObject(h, p, slot, members))
  {}

  lemma RunDoes(hs: seq<Heap>, ops: seq<Op>, i: nat)
    requires IsRun(hs, ops) && i < |ops|
    ensures Did(hs[i], ops[i], hs[i + 1]) && LeavesOthers(hs[i], ops[i], hs[i + 1])
  {
    RunKeepsGood(hs, ops, i);
    var rank :| Acyclic(hs[i], rank);
    OperationDoes(hs[i], ops[i], rank);
  }

  /** At any time of any run a slot's bit is set exactly while a chain of references leads to its object
      from outside the pool, and every reference is to such a slot: nothing dangles and nothing leaks. */
  lemma RunIsTidy(hs: seq<Heap>, ops: seq<Op>, i: nat)
    requires IsRun(hs, ops) && i < |hs|
    ensures forall s :: s in hs[i].bits <==> Rooted(hs[i], {}, s)
    ensures forall q :: q in hs[i].counted ==> !Dangling(hs[i], q)
    ensures forall s :: hs[i].CountOf(s) == |hs[i].Holders(s)|
  {
    RunKeepsGood(hs, ops, i);
    var h := hs[i];
    var rank :| Acyclic(h, rank);
    forall s ensures s in h.bits <==> Rooted(h, {}, s) {
      if s in h.bits { var qs := RootOf(h, {}, rank, s); }
      if Rooted(h, {}, s) {
        var qs :| Path(h, {}, qs, s);
        assert qs[|qs| - 1] in h.Holders(s);
      }
    }
    forall q | q in h.counted ensures !Dangling(h, q) { assert q in h.Holders(h.Target(q).value); }
  }

  // ---- move assignment and leaks

  /** Every live object is reached from outside the pool. */
  ghost predicate NoLeak(h: Heap) {
    forall s :: s in h.objects ==> Rooted(h, {}, s)
  }

  /** The owner of `q`, if any, is reached without `p`. */
  ghost predicate OwnerSafe(h: Heap, q: Ptr, p: Ptr) {
    forall o :: h.Owns(o, q) ==> Rooted(h, {p}, o)
  }

  /** Along references the rank rises, whatever else has been swapped. */
  lemma {:induction false} RankRises(h: Heap, rank: Slot -> nat, qs: seq<Ptr>, i: nat, j: nat)
    requires Acyclic(h, rank) && i < j < |qs|
    requires forall k :: i < k <= j ==> LeadsTo(h, qs[k - 1], qs[k])
    requires forall k :: i <= k <= j ==> h.Target(qs[k]).Some?
    ensures rank(h.Target(qs[i]).value) < rank(h.Target(qs[j]).value)
  {
    assert LeadsTo(h, qs[j - 1], qs[j]);
    assert h.Owns(h.Target(qs[j - 1]).value, qs[j]);
    if i < j - 1 { RankRises(h, rank, qs, i, j - 1); }
  }

  /** The way to an object never uses a member of it. */
  lemma AvoidsMember(h: Heap, rank: Slot -> nat, without: set<Ptr>, qs: seq<Ptr>, o: Slot, q: Ptr)
    requires Acyclic(h, rank) && Path(h, without, qs, o) && h.Owns(o, q) && (forall x :: x in h.counted ==> h.Target(x).Some?)
    ensures q !in qs
  {
    forall i | 0 <= i < |qs| ensures qs[i] != q {
      var last := |qs| - 1;
      if i < last { RankRises(h, rank, qs, i, last); }
    }
  }

  /** The last place where one of two pointers is used, or none. */
  lemma LastUse(qs: seq<Ptr>, p: Ptr, q: Ptr) returns (k: int)
    ensures -1 <= k < |qs| && (k >= 0 ==> qs[k] == p || qs[k] == q)
    ensures forall j :: k < j < |qs| ==> qs[j] != p && qs[j] != q
  {
    k := |qs| - 1;
    while k >= 0 && qs[k] != p && qs[k] != q
      invariant -1 <= k < |qs| && forall j :: k < j < |qs| ==> qs[j] != p && qs[j] != q
    {
      k := k - 1;
    }
  }

  /** What was reached by `p` last is reached by `q` after the swap, if `q` itself is. */
  lemma Reroute(h: Heap, p: Ptr, q: Ptr, rank: Slot -> nat, qs: seq<Ptr>, k: nat, t: Slot)
    requires Good(h) && Acyclic(h, rank) && Path(h, {}, qs, t) && k < |qs| && qs[k] == p
    requires forall j :: k < j < |qs| ==> qs[j] != p && qs[j] != q
    requires OwnerSafe(h, q, p)
    ensures Rooted(Swap(h, p, q), {}, t)
  {
    hide Swap, Good, Acyclic;
    var e, rest := Swap(h, p, q), qs[k + 1..];
    SwapHere(h, p, q);
    forall j | k < j < |qs| ensures qs[j] in e.counted && e.Target(qs[j]) == h.Target(qs[j]) && (j > k + 1 ==> LeadsTo(e, qs[j - 1], qs[j])) {
      SwapElsewhere(h, p, q, qs[j]);
      assert LeadsTo(h, qs[j - 1], qs[j]);
      if j > k + 1 { SwapElsewhere(h, p, q, qs[j - 1]); }
    }
    assert k + 1 < |qs| ==> LeadsTo(h, p, qs[k + 1]);
    if h.Loose(q) {
      Onward(e, [], q, rest, t, qs, k);
    } else {
      var o :| h.Owns(o, q);
      assert Rooted(h, {p}, o);
      var way :| Path(h, {p}, way, o);
      ReachesOwner(h, p, q, rank, way, o);
      Onward(e, way, q, rest, t, qs, k);
    }
  }

  /** A way to the owner that avoids `p` stays one, and leads on to the member. */
  lemma ReachesOwner(h: Heap, p: Ptr, q: Ptr, rank: Slot -> nat, way: seq<Ptr>, o: Slot)
    requires Good(h) && Acyclic(h, rank) && Path(h, {p}, way, o) && h.Owns(o, q)
    ensures var e := Swap(h, p, q);
            Path(e, {}, way, o) && LeadsTo(e, way[|way| - 1], q)
  {
    AvoidsMember(h, rank, {p}, way, o, q);
    hide Swap;
    var e := Swap(h, p, q);
    forall i | 0 <= i < |way| ensures way[i] in e.counted && way[i] !in {} && (i > 0 ==> LeadsTo(e, way[i - 1], way[i])) {
      assert way[i] in way;
      SwapElsewhere(h, p, q, way[i]);
      if i > 0 {
        assert way[i - 1] in way;
        SwapElsewhere(h, p, q, way[i - 1]);
        assert LeadsTo(h, way[i - 1], way[i]);
      }
    }
    assert way[0] in way && way[|way| - 1] in way;
    SwapElsewhere(h, p, q, way[0]);
    SwapElsewhere(h, p, q, way[|way| - 1]);
    assert LeadsTo(h, way[|way| - 1], q);
  }

  lemma Onward(e: Heap, way: seq<Ptr>, q: Ptr, rest: seq<Ptr>, t: Slot, qs: seq<Ptr>, k: nat)
    requires k < |qs| && rest == qs[k + 1..] && q in e.counted
    requires if way == [] then e.Loose(q) else
               e.Loose(way[0]) && (forall i :: 0 <= i < |way| ==> way[i] in e.counted && (i > 0 ==> LeadsTo(e, way[i - 1], way[i])))
               && LeadsTo(e, way[|way| - 1], q)
    requires rest != [] ==> LeadsTo(e, q, rest[0])
    requires forall j :: k < j < |qs| ==> qs[j] in e.counted && (j > k + 1 ==> LeadsTo(e, qs[j - 1], qs[j]))
    requires e.Target(if rest == [] then q else qs[|qs| - 1]) == Some(t)
    ensures Rooted(e, {}, t)
  {
    hide LeadsTo;
    var path := way + [q] + rest;
    forall i | 0 <= i < |path| ensures path[i] in e.counted && path[i] !in {} && (i > 0 ==> LeadsTo(e, path[i - 1], path[i])) {
      if i > |way| {
        var j := i - |way| + k;
        assert path[i] == qs[j] && (i > |way| + 1 ==> path[i - 1] == qs[j - 1]);
      }
    }
    assert Path(e, {}, path, t);
  }

  /** Unless an owner was reached by the other pointer only, everything is still reached. */
  lemma StillReached(h: Heap, p: Ptr, q: Ptr, rank: Slot -> nat, t: Slot)
    requires Good(h) && Acyclic(h, rank) && t in h.objects && OwnerSafe(h, q, p) && OwnerSafe(h, p, q)
    ensures Rooted(Swap(h, p, q), {}, t)
  {
    hide Swap, OwnerSafe;
    var qs := RootOf(h, {}, rank, t);
    var k := LastUse(qs, p, q);
    if k < 0 {
      var e := Swap(h, p, q);
      forall i | 0 <= i < |qs| ensures qs[i] in e.counted && qs[i] !in {} && (i > 0 ==> LeadsTo(e, qs[i - 1], qs[i])) {
        SwapElsewhere(h, p, q, qs[i]);
        if i > 0 { SwapElsewhere(h, p, q, qs[i - 1]); }
      }
      SwapElsewhere(h, p, q, qs[0]);
      SwapElsewhere(h, p, q, qs[|qs| - 1]);
      assert Path(e, {}, qs, t);
    } else if qs[k] == p {
      Reroute(h, p, q, rank, qs, k, t);
    } else {
      SwapSame(h, p, q);
      Reroute(h, q, p, rank, qs, k, t);
    }
  }

  /** Behind the last use of `p` the references are those of before, so that the rank rises from where `q` led. */
  lemma RankBehind(h: Heap, p: Ptr, q: Ptr, rank: Slot -> nat, qs: seq<Ptr>, k: nat, o: Slot)
    requires Acyclic(h, rank) && Path(Swap(h, p, q), {}, qs, o) && k < |qs| && qs[k] == p
    requires forall j :: k < j < |qs| ==> qs[j] != p && qs[j] != q
    requires forall x :: x in h.counted ==> h.Target(x).Some?
    ensures h.Target(q).Some? && rank(h.Target(q).value) <= rank(o)
  {
    hide Swap;
    var e, last := Swap(h, p, q), |qs| - 1;
    SwapSame(h, p, q);
    SwapHere(h, q, p);
    if k < last {
      forall j | k < j <= last ensures h.Target(qs[j]).Some? && h.Target(qs[j]) == e.Target(qs[j]) {
        SwapElsewhere(h, p, q, qs[j]);
      }
      forall j | k + 1 < j <= last ensures LeadsTo(h, qs[j - 1], qs[j]) {
        SwapElsewhere(h, p, q, qs[j - 1]);
        assert LeadsTo(e, qs[j - 1], qs[j]);
      }
      assert LeadsTo(e, p, qs[k + 1]);
      assert h.Owns(h.Target(q).value, qs[k + 1]);
      if k + 1 < last { RankRises(h, rank, qs, k + 1, last); }
    }
  }

  /** An owner that is reached after the swap was reached without `p` before. */
  lemma {:induction false} ReachedBefore(h: Heap, p: Ptr, q: Ptr, rank: Slot -> nat, o: Slot, qs: seq<Ptr>)
    requires Good(h) && Acyclic(h, rank) && p != q && h.Owns(o, q) && Path(Swap(h, p, q), {}, qs, o)
    ensures Rooted(h, {p}, o)
    decreases |qs|
  {
    hide Swap, Good;
    var e := Swap(h, p, q);
    CountedHaveTargets(h);
    var k := LastUse(qs, p, q);
    if k < 0 {
      forall i | 0 <= i < |qs| ensures qs[i] in h.counted && qs[i] !in {p} && (i > 0 ==> LeadsTo(h, qs[i - 1], qs[i])) {
        SwapElsewhere(h, p, q, qs[i]);
        if i > 0 {
          SwapElsewhere(h, p, q, qs[i - 1]);
          assert LeadsTo(e, qs[i - 1], qs[i]);
        }
      }
      SwapElsewhere(h, p, q, qs[0]);
      SwapElsewhere(h, p, q, qs[|qs| - 1]);
      assert Path(h, {p}, qs, o);
    } else if qs[k] == p {
      RankBehind(h, p, q, rank, qs, k, o);
    } else {
      OwnerEarlier(h, p, q, o, qs, k);
      ReachedBefore(h, p, q, rank, o, qs[..k]);
    }
  }

  lemma CountedHaveTargets(h: Heap)
    requires Good(h)
    ensures forall x :: x in h.counted ==> h.Target(x).Some?
    ensures forall s, t, x :: h.Owns(s, x) && h.Owns(t, x) ==> s == t
  {}

  /** A way that uses a member has come past its owner. */
  lemma OwnerEarlier(h: Heap, p: Ptr, q: Ptr, o: Slot, qs: seq<Ptr>, k: nat)
    requires Good(h) && h.Owns(o, q) && Path(Swap(h, p, q), {}, qs, o) && k < |qs| && qs[k] == q
    ensures Path(Swap(h, p, q), {}, qs[..k], o)
  {
    CountedHaveTargets(h);
    var e := Swap(h, p, q);
    assert forall s, x :: e.Owns(s, x) <==> h.Owns(s, x);
    hide Swap, Good;
    assert k > 0;
    assert LeadsTo(e, qs[k - 1], q);
    assert e.Target(qs[k - 1]) == Some(o);
  }

  /** Move assignment swaps, and keeps every count right. In a pool without cycles it leaks exactly when the
      owner of one of the two pointers is reached by the other one only. */
  lemma MoveAssignExact(h: Heap, p: Ptr, q: Ptr, rank: Slot -> nat)
    requires Good(h) && Known(h) && Acyclic(h, rank) && Exists(h, p) && Exists(h, q) && p != q
    ensures Good(Swap(h, p, q))
    ensures NoLeak(Swap(h, p, q)) <==> OwnerSafe(h, q, p) && OwnerSafe(h, p, q)
  {
    hide Inv, Acyclic, Rooted, OwnerSafe;
    SwapKeeps(h, p, q);
    if OwnerSafe(h, q, p) && OwnerSafe(h, p, q) {
      forall t | t in h.objects ensures Rooted(Swap(h, p, q), {}, t) { StillReached(h, p, q, rank, t); }
    }
    if NoLeak(Swap(h, p, q)) {
      LeakShows(h, p, q, rank);
      SwapSame(h, p, q);
      LeakShows(h, q, p, rank);
    }
  }

  lemma LeakShows(h: Heap, p: Ptr, q: Ptr, rank: Slot -> nat)
    requires Good(h) && Acyclic(h, rank) && p != q && NoLeak(Swap(h, p, q))
    ensures OwnerSafe(h, q, p)
  {
    forall o | h.Owns(o, q) ensures Rooted(h, {p}, o) {
      assert Rooted(Swap(h, p, q), {}, o);
      var qs :| Path(Swap(h, p, q), {}, qs, o);
      ReachedBefore(h, p, q, rank, o, qs);
    }
  }

  /** `p = std::move(p->next)` with the only reference to an object: the object is left to its own member. */
  lemma MovedNextLeaks(h: Heap, p: Ptr, q: Ptr, s: Slot, rank: Slot -> nat)
    requires Good(h) && Known(h) && Acyclic(h, rank) && Exists(h, p) && Exists(h, q) && p != q
    requires h.Holders(s) == {p} && h.Owns(s, q)
    ensures !NoLeak(Swap(h, p, q)) && Swap(h, p, q).Target(q) == Some(s)
  {
    hide Swap, Good, Acyclic;
    assert p in h.Holders(s);
    SwapHere(h, p, q);
    forall qs ensures !Path(h, {p}, qs, s) {
      assert |qs| > 0 && qs[|qs| - 1] in h.counted && h.Target(qs[|qs| - 1]) == Some(s) ==> qs[|qs| - 1] in h.Holders(s);
    }
    assert !Rooted(h, {p}, s);
    MoveAssignExact(h, p, q, rank);
  }

  /** It happens to a list of two objects that one pointer holds. */
  lemma ListLeaks()
    ensures Good(Listed()) && !NoLeak(Swap(Listed(), 10, 11))
  {
    hide Good;
    ListedIsGood();
    ListedFacts();
    MovedNextLeaks(Listed(), 10, 11, 1, s => if s == 1 then 0 else 1);
  }
}
