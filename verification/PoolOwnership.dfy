/** Pooled objects that hold pointers into the pool themselves, as one thread sees them: with its last
    reference an object takes its member pointers along, and whatever only those kept alive. */
module PoolOwnership {
  import opened Wrappers

  type Slot = int
  type Ptr = int

  /** The bitmap and the 8-bit counts, the live objects with their member pointers in the order of
      declaration, the `m_object` field of every pointer, also of one that is destroyed already, and
      the pointers that hold a reference. */
  datatype Heap = Heap(
    bits: set<Slot>,
    counts: map<Slot, nat>,
    objects: map<Slot, seq<Ptr>>,
    fields: map<Ptr, Option<Slot>>,
    counted: set<Ptr>)
  {
    function CountOf(s: Slot): nat {
      if s in counts then counts[s] else 0
    }

    function Target(q: Ptr): Option<Slot> {
      if q in fields then fields[q] else None
    }

    ghost function Holders(s: Slot): set<Ptr> {
      set q | q in counted && Target(q) == Some(s)
    }

    ghost predicate Owns(s: Slot, q: Ptr) {
      s in objects && q in objects[s]
    }

    /** Not a member of any pooled object. */
    ghost predicate Loose(q: Ptr) {
      forall s :: !Owns(s, q)
    }
  }

  // ---- the code

  /** `release_ref` of a pointer: the last reference destroys the object, then its bit is cleared. */
  function Release(h: Heap, q: Ptr): (r: Heap)
    ensures r.objects.Keys <= h.objects.Keys
    decreases h.objects.Keys, 0
  {
    if h.Target(q).None? then h else
    var s, n := h.Target(q).value, h.CountOf(h.Target(q).value);
    var g := h.(counts := h.counts[s := (n + 255) % 256], counted := h.counted - {q});
    if n != 1 || s !in h.objects then g else
    var r := DestroyMembers(g.(objects := g.objects - {s}), g.objects[s]);
    r.(bits := r.bits - {s})
  }

  /** The implicit part of a destructor: the members end in the reverse order of their declaration. */
  function DestroyMembers(h: Heap, ms: seq<Ptr>): (r: Heap)
    ensures r.objects.Keys <= h.objects.Keys
    decreases h.objects.Keys, |ms|
  {
    if ms == [] then h else DestroyMembers(Release(h, ms[|ms| - 1]), ms[..|ms| - 1])
  }

  /** `m_object = other.m_object` and `acquire_ref`. */
  function Attach(h: Heap, p: Ptr, target: Option<Slot>): Heap {
    var g := h.(fields := h.fields[p := target]);
    if target.None? then g else
    g.(counts := g.counts[target.value := (g.CountOf(target.value) + 1) % 256], counted := g.counted + {p})
  }

  /** Copy assignment reads the right-hand side a second time after the release, whatever has become
      of it by then. */
  function CopyAssign(h: Heap, p: Ptr, src: Ptr): Heap {
    if h.Target(p) == h.Target(src) then h else
    var g := Release(h, p);
    Attach(g, p, g.Target(src))
  }

  // ---- what holds between operations

  /** Counts are the numbers of references, the live objects are those with references, no pointer is a
      member twice, and every member that is not in flight holds a reference or is null. */
  ghost predicate Inv(h: Heap, flight: set<Ptr>) {
    Counting(h, flight) && Membership(h, flight)
  }

  ghost predicate Counting(h: Heap, flight: set<Ptr>) {
    && (forall q :: q in h.counted ==> h.Target(q).Some? && q !in flight)
    && (forall s :: h.CountOf(s) == |h.Holders(s)| <= 255)
    && (forall s :: s in h.objects <==> h.Holders(s) != {})
  }

  ghost predicate Membership(h: Heap, flight: set<Ptr>) {
    && (forall s, q :: h.Owns(s, q) && q !in flight && h.Target(q).Some? ==> q in h.counted)
    && (forall s :: s in h.objects ==> NoRepeats(h.objects[s]))
    && (forall s, t, q :: h.Owns(s, q) && h.Owns(t, q) ==> s == t)
  }

  ghost predicate NoRepeats(ms: seq<Ptr>) {
    forall i, j :: 0 <= i < j < |ms| ==> ms[i] != ms[j]
  }

  ghost predicate Good(h: Heap) {
    Inv(h, {}) && h.bits == h.objects.Keys
  }

  /** No cycles: an owner ranks below what its members refer to. */
  ghost predicate Acyclic(h: Heap, rank: Slot -> nat) {
    forall s, q :: h.Owns(s, q) && h.Target(q).Some? ==> rank(s) < rank(h.Target(q).value)
  }

  /** A pointer in existence. */
  ghost predicate Exists(h: Heap, q: Ptr) {
    q in h.fields && (h.Target(q).Some? ==> q in h.counted)
  }

  /** `r` is `h` without the references of `gone` and without some objects and their members'. */
  ghost predicate Shrunk(h: Heap, r: Heap, gone: set<Ptr>) {
    && r.fields == h.fields
    && (forall s :: s in r.objects ==> s in h.objects && r.objects[s] == h.objects[s])
    && (forall q :: q in r.counted <==> q in h.counted && q !in gone && forall s :: h.Owns(s, q) ==> s in r.objects)
    && (forall s :: s in r.bits <==> s in h.bits && (s in h.objects ==> s in r.objects))
  }

  /** The members of an object under destruction. */
  ghost predicate Pending(h: Heap, ms: seq<Ptr>, flight: set<Ptr>, rank: Slot -> nat, low: nat) {
    && NoRepeats(ms)
    && (forall q :: q in ms ==> h.Loose(q) && q !in flight && (h.Target(q).Some? ==> q in h.counted && low <= rank(h.Target(q).value)))
  }

  /** What is in flight belongs to objects ranked below. */
  ghost predicate Above(h: Heap, flight: set<Ptr>, rank: Slot -> nat, low: nat) {
    forall s, q :: h.Owns(s, q) && q in flight ==> rank(s) < low
  }

  /** The first part of `release_ref`: the count goes down, and with the last reference the object is
      no longer one of the live ones. */
  function Dropped(h: Heap, q: Ptr, s: Slot): Heap {
    var n := h.CountOf(s);
    h.(counts := h.counts[s := (n + 255) % 256], counted := h.counted - {q},
       objects := if n == 1 then h.objects - {s} else h.objects)
  }

  lemma DropKeeps(h: Heap, q: Ptr, s: Slot, flight: set<Ptr>)
    requires Inv(h, flight - {q}) && q in h.counted && h.Target(q) == Some(s) && (q in flight || h.Loose(q))
    ensures Inv(Dropped(h, q, s), flight)
    ensures h.CountOf(s) >= 1 && (h.CountOf(s) == 1 ==> s in h.objects)
  {
    hide Counting, Membership;
    DropCounts(h, q, s, flight);
    DropMembers(h, q, s, flight);
  }

  lemma DropCounts(h: Heap, q: Ptr, s: Slot, flight: set<Ptr>)
    requires Counting(h, flight - {q}) && q in h.counted && h.Target(q) == Some(s)
    ensures Counting(Dropped(h, q, s), flight)
    ensures h.CountOf(s) >= 1 && (h.CountOf(s) == 1 ==> s in h.objects)
  {
    var g := Dropped(h, q, s);
    assert q in h.Holders(s);
    assert g.Holders(s) == h.Holders(s) - {q};
    forall t | t != s ensures g.Holders(t) == h.Holders(t) {}
    assert |g.Holders(s)| == |h.Holders(s)| - 1;
  }

  lemma DropMembers(h: Heap, q: Ptr, s: Slot, flight: set<Ptr>)
    requires Membership(h, flight - {q}) && (q in flight || h.Loose(q))
    ensures Membership(Dropped(h, q, s), flight)
  {
    forall t, x | Dropped(h, q, s).Owns(t, x) ensures h.Owns(t, x) {}
  }

  lemma ReleaseIs(h: Heap, q: Ptr, s: Slot)
    requires h.Target(q) == Some(s) && (h.CountOf(s) == 1 ==> s in h.objects)
    ensures var g := Dropped(h, q, s);
            Release(h, q) == if h.CountOf(s) != 1 then g
                             else var r := DestroyMembers(g, h.objects[s]); r.(bits := r.bits - {s})
  {}

  /** The members of the object that ends are what is pending next. */
  lemma MembersPend(h: Heap, q: Ptr, s: Slot, flight: set<Ptr>, rank: Slot -> nat)
    requires Inv(h, flight - {q}) && q in h.counted && h.Target(q) == Some(s) && (q in flight || h.Loose(q))
    requires h.CountOf(s) == 1 && s in h.objects && Acyclic(h, rank) && Above(h, flight, rank, rank(s))
    ensures var g := Dropped(h, q, s);
            Pending(g, h.objects[s], flight, rank, rank(s)) && Acyclic(g, rank) && Above(g, flight, rank, rank(s))
  {
    var g := Dropped(h, q, s);
    forall t, x | g.Owns(t, x) ensures h.Owns(t, x) && t != s {}
    forall x | x in h.objects[s]
      ensures g.Loose(x) && x !in flight && (g.Target(x).Some? ==> x in g.counted && rank(s) <= rank(g.Target(x).value))
    {
      assert h.Owns(s, x);
    }
  }

  lemma ReleaseShrinks(h: Heap, q: Ptr, s: Slot, r: Heap)
    requires q in h.counted && h.CountOf(s) == 1 && s in h.objects
    requires Shrunk(Dropped(h, q, s), r, set x | x in h.objects[s])
    ensures Shrunk(h, r.(bits := r.bits - {s}), {q})
  {
    var g, e := Dropped(h, q, s), r.(bits := r.bits - {s});
    forall x ensures x in e.counted <==> x in h.counted && x != q && forall t :: h.Owns(t, x) ==> t in e.objects {
      assert forall t :: h.Owns(t, x) <==> g.Owns(t, x) || (t == s && x in h.objects[s]);
    }
  }

  lemma DropShrinks(h: Heap, q: Ptr, s: Slot)
    requires h.CountOf(s) != 1
    ensures Shrunk(h, Dropped(h, q, s), {q})
  {}

  lemma InvWithoutBits(h: Heap, flight: set<Ptr>, bits: set<Slot>)
    requires Inv(h, flight)
    ensures Inv(h.(bits := bits), flight)
  {
    var g := h.(bits := bits);
    forall s ensures g.Holders(s) == h.Holders(s) && g.CountOf(s) == h.CountOf(s) {}
    forall s, q ensures g.Owns(s, q) <==> h.Owns(s, q) {}
    forall q ensures g.Target(q) == h.Target(q) {}
  }

  /** Releasing a reference keeps counts and objects right, as long as nothing destroyed is in flight,
      and takes away nothing but the reference and what is destroyed with it. */
  lemma {:induction false} ReleaseKeeps(h: Heap, q: Ptr, flight: set<Ptr>, rank: Slot -> nat)
    requires Inv(h, flight - {q}) && q in h.counted && (q in flight || h.Loose(q)) && h.Target(q).Some?
    requires Acyclic(h, rank) && Above(h, flight, rank, rank(h.Target(q).value))
    ensures Inv(Release(h, q), flight) && Shrunk(h, Release(h, q), {q})
    decreases h.objects.Keys, 0
  {
    hide Inv, Acyclic, Above, Pending, Shrunk;
    var s := h.Target(q).value;
    var g := Dropped(h, q, s);
    DropKeeps(h, q, s, flight);
    ReleaseIs(h, q, s);
    if h.CountOf(s) == 1 {
      var r := DestroyMembers(g, h.objects[s]);
      MembersPend(h, q, s, flight, rank);
      MembersKeep(g, h.objects[s], flight, rank, rank(s));
      ReleaseShrinks(h, q, s, r);
      InvWithoutBits(r, flight, r.bits - {s});
    } else {
      DropShrinks(h, q, s);
    }
  }

  lemma {:induction false} MembersKeep(h: Heap, ms: seq<Ptr>, flight: set<Ptr>, rank: Slot -> nat, low: nat)
    requires Inv(h, flight) && Pending(h, ms, flight, rank, low) && Acyclic(h, rank) && Above(h, flight, rank, low)
    ensures Inv(DestroyMembers(h, ms), flight) && Shrunk(h, DestroyMembers(h, ms), set x | x in ms)
    decreases h.objects.Keys, |ms|
  {
    hide Inv, Acyclic, Above, Pending, Shrunk;
    if ms == [] {
      ShrunkSame(h, set x | x in ms);
    } else {
      var last, rest := ms[|ms| - 1], ms[..|ms| - 1];
      var r := Release(h, last);
      LastPending(h, ms, flight, rank, low);
      if h.Target(last).None? {
        NullIsUncounted(h, flight, last);
        ShrunkSame(h, {last});
      } else {
        ReleaseKeeps(h, last, flight, rank);
      }
      StillPending(h, r, last, rest, flight, rank, low);
      MembersKeep(r, rest, flight, rank, low);
      ShrunkTwice(h, r, DestroyMembers(r, rest), {last}, set x | x in rest);
      assert {last} + (set x | x in rest) == set x | x in ms;
    }
  }

  lemma ShrunkSame(h: Heap, gone: set<Ptr>)
    requires forall q :: q in gone ==> q !in h.counted
    ensures Shrunk(h, h, gone)
  {}

  lemma NullIsUncounted(h: Heap, flight: set<Ptr>, q: Ptr)
    requires Inv(h, flight) && h.Target(q).None?
    ensures q !in h.counted
  {}

  lemma LastPending(h: Heap, ms: seq<Ptr>, flight: set<Ptr>, rank: Slot -> nat, low: nat)
    requires ms != [] && Pending(h, ms, flight, rank, low) && Above(h, flight, rank, low) && Inv(h, flight)
    ensures var last := ms[|ms| - 1];
            && h.Loose(last) && last !in flight && flight - {last} == flight && last !in ms[..|ms| - 1]
            && (h.Target(last).Some? ==> last in h.counted && Above(h, flight, rank, rank(h.Target(last).value)))
    ensures Pending(h, ms[..|ms| - 1], flight, rank, low)
  {}

  lemma StillPending(h: Heap, r: Heap, last: Ptr, rest: seq<Ptr>, flight: set<Ptr>, rank: Slot -> nat, low: nat)
    requires Shrunk(h, r, {last}) && last !in rest
    requires Pending(h, rest, flight, rank, low) && Acyclic(h, rank) && Above(h, flight, rank, low)
    ensures Pending(r, rest, flight, rank, low) && Acyclic(r, rank) && Above(r, flight, rank, low)
  {
    forall s, q | r.Owns(s, q) ensures h.Owns(s, q) {}
    forall q | q in rest ensures r.Loose(q) && (r.Target(q).Some? ==> q in r.counted) {
      assert h.Loose(q) && r.Target(q) == h.Target(q);
    }
  }

  lemma ShrunkTwice(h: Heap, r: Heap, e: Heap, a: set<Ptr>, b: set<Ptr>)
    requires Shrunk(h, r, a) && Shrunk(r, e, b)
    ensures Shrunk(h, e, a + b)
  {
    forall q ensures q in e.counted <==> q in h.counted && q !in a + b && forall s :: h.Owns(s, q) ==> s in e.objects {
      assert forall s :: r.Owns(s, q) ==> h.Owns(s, q);
      if q in e.counted {
        forall s | h.Owns(s, q) ensures s in e.objects { assert s in r.objects && r.Owns(s, q); }
      }
    }
  }

  // ---- what survives a release

  /** References that lead from a pointer outside the pool, through members, to slot `t`, by none of `without`. */
  ghost predicate Path(h: Heap, without: set<Ptr>, qs: seq<Ptr>, t: Slot) {
    && qs != [] && h.Loose(qs[0]) && h.Target(qs[|qs| - 1]) == Some(t)
    && (forall i :: 0 <= i < |qs| ==> qs[i] in h.counted && qs[i] !in without && (i > 0 ==> LeadsTo(h, qs[i - 1], qs[i])))
  }

  ghost predicate LeadsTo(h: Heap, a: Ptr, b: Ptr) {
    h.Target(a).Some? && h.Owns(h.Target(a).value, b)
  }

  ghost predicate Rooted(h: Heap, without: set<Ptr>, t: Slot) {
    exists qs :: Path(h, without, qs, t)
  }

  lemma {:induction false} PathSurvives(h: Heap, r: Heap, p: Ptr, qs: seq<Ptr>, t: Slot, i: nat)
    requires Inv(h, {}) && Inv(r, {p}) && Shrunk(h, r, {p}) && Path(h, {p}, qs, t) && i < |qs|
    ensures h.Target(qs[i]).Some? && h.Target(qs[i]).value in r.objects
  {
    var q := qs[i];
    if i > 0 {
      PathSurvives(h, r, p, qs, t, i - 1);
      assert LeadsTo(h, qs[i - 1], q);
    }
    assert q in r.counted;
    assert q in r.Holders(r.Target(q).value);
  }

  lemma {:induction false} RootOf(r: Heap, flight: set<Ptr>, rank: Slot -> nat, t: Slot) returns (qs: seq<Ptr>)
    requires Inv(r, flight) && Acyclic(r, rank) && t in r.objects
    ensures Path(r, flight, qs, t)
    decreases rank(t)
  {
    var q :| q in r.Holders(t);
    if r.Loose(q) {
      qs := [q];
    } else {
      var s :| r.Owns(s, q);
      qs := RootOf(r, flight, rank, s);
      PathExtends(r, flight, qs, s, q, t);
      qs := qs + [q];
    }
  }

  lemma PathExtends(r: Heap, without: set<Ptr>, qs: seq<Ptr>, s: Slot, q: Ptr, t: Slot)
    requires Path(r, without, qs, s) && r.Owns(s, q) && q in r.counted && q !in without && r.Target(q) == Some(t)
    ensures Path(r, without, qs + [q], t)
  {}

  lemma PathBefore(h: Heap, r: Heap, p: Ptr, qs: seq<Ptr>, t: Slot)
    requires Shrunk(h, r, {p}) && Path(r, {p}, qs, t)
    ensures Path(h, {p}, qs, t)
  {
    forall s ensures !h.Owns(s, qs[0]) { assert !r.Owns(s, qs[0]); }
    forall i | 0 <= i < |qs| ensures qs[i] in h.counted && qs[i] !in {p} && (i > 0 ==> LeadsTo(h, qs[i - 1], qs[i])) {
      assert i > 0 ==> LeadsTo(r, qs[i - 1], qs[i]);
    }
  }

  lemma ReleasedKeeps(h: Heap, p: Ptr, rank: Slot -> nat)
    requires Good(h) && Acyclic(h, rank) && p in h.counted
    ensures Inv(Release(h, p), {p}) && Shrunk(h, Release(h, p), {p}) && Release(h, p).bits == Release(h, p).objects.Keys
  {
    hide Inv, Acyclic, Above, Shrunk;
    OwnerBelow(h, p, rank);
    ReleaseKeeps(h, p, {p}, rank);
    BitsStay(h, Release(h, p), {p});
  }

  lemma BitsStay(h: Heap, r: Heap, gone: set<Ptr>)
    requires Shrunk(h, r, gone) && h.bits == h.objects.Keys
    ensures r.bits == r.objects.Keys
  {
    forall s ensures s in r.bits <==> s in r.objects {}
  }

  lemma OwnerBelow(h: Heap, p: Ptr, rank: Slot -> nat)
    requires Good(h) && Acyclic(h, rank) && p in h.counted
    ensures h.Target(p).Some? && Inv(h, {p} - {p}) && Above(h, {p}, rank, rank(h.Target(p).value))
  {
    assert {p} - {p} == {};
  }

  /** Releasing a pointer destroys exactly the objects that no reference from outside the pool leads to
      any more, and the bits that stay are those of the others. */
  lemma ReleaseExact(h: Heap, p: Ptr, rank: Slot -> nat, t: Slot)
    requires Good(h) && Acyclic(h, rank) && p in h.counted
    ensures t in Release(h, p).objects <==> Rooted(h, {p}, t)
    ensures Release(h, p).bits == Release(h, p).objects.Keys
  {
    ReleasedKeeps(h, p, rank);
    var r := Release(h, p);
    if t in r.objects {
      StillAcyclic(h, r, p, rank);
      var qs := RootOf(r, {p}, rank, t);
      PathBefore(h, r, p, qs, t);
    }
    if Rooted(h, {p}, t) {
      var qs :| Path(h, {p}, qs, t);
      PathSurvives(h, r, p, qs, t, |qs| - 1);
    }
  }

  lemma StillAcyclic(h: Heap, r: Heap, p: Ptr, rank: Slot -> nat)
    requires Shrunk(h, r, {p}) && Acyclic(h, rank)
    ensures Acyclic(r, rank)
  {
    forall s, q | r.Owns(s, q) ensures h.Owns(s, q) {}
  }

  /** Destroying a pointer that is not itself a member keeps everything right. */
  lemma DestroyKeepsGood(h: Heap, p: Ptr, rank: Slot -> nat)
    requires Good(h) && Acyclic(h, rank) && Exists(h, p) && h.Loose(p)
    ensures Good(Release(h, p))
  {
    if h.Target(p).Some? {
      ReleasedKeeps(h, p, rank);
      var r := Release(h, p);
      forall s ensures !r.Owns(s, p) { assert !h.Owns(s, p); }
    }
  }

  // ---- copy assignment

  lemma AttachKeeps(r: Heap, p: Ptr, t: Slot)
    requires Inv(r, {p}) && t in r.objects && |r.Holders(t)| < 255
    ensures Inv(Attach(r, p, Some(t)), {})
  {
    hide Counting, Membership;
    AttachCounts(r, p, t);
    AttachMembers(r, p, Some(t));
  }

  lemma AttachCounts(r: Heap, p: Ptr, t: Slot)
    requires Counting(r, {p}) && t in r.objects && |r.Holders(t)| < 255
    ensures Counting(Attach(r, p, Some(t)), {})
  {
    var e := Attach(r, p, Some(t));
    assert e.Holders(t) == r.Holders(t) + {p};
    forall s | s != t ensures e.Holders(s) == r.Holders(s) {}
  }

  lemma AttachMembers(r: Heap, p: Ptr, target: Option<Slot>)
    requires Membership(r, {p})
    ensures Membership(Attach(r, p, target), {})
  {
    forall s, q ensures Attach(r, p, target).Owns(s, q) <==> r.Owns(s, q) {}
  }

  lemma AttachNull(r: Heap, p: Ptr)
    requires Inv(r, {p})
    ensures Inv(Attach(r, p, None), {})
  {
    forall s ensures Attach(r, p, None).Holders(s) == r.Holders(s) {}
    AttachMembers(r, p, None);
  }

  /** A reference to an object that is gone: its bit is clear. */
  ghost predicate Dangling(h: Heap, q: Ptr) {
    q in h.counted && h.Target(q).Some? && h.Target(q).value !in h.bits
  }

  lemma AttachDangles(r: Heap, p: Ptr, t: Slot)
    requires r.bits == r.objects.Keys && t !in r.objects
    ensures Dangling(Attach(r, p, Some(t)), p) && !Good(Attach(r, p, Some(t)))
  {
    var e := Attach(r, p, Some(t));
    assert p in e.Holders(t);
  }

  lemma FewerHolders(h: Heap, r: Heap, p: Ptr, t: Slot)
    requires Shrunk(h, r, {p})
    ensures |r.Holders(t)| <= |h.Holders(t)|
  {
    SubsetSize(r.Holders(t), h.Holders(t));
  }

  lemma {:induction false} SubsetSize(a: set<Ptr>, b: set<Ptr>)
    requires a <= b
    ensures |a| <= |b|
  {
    assert b == a + (b - a);
  }

  lemma NullKeeps(h: Heap, p: Ptr)
    requires Good(h) && h.Target(p).None?
    ensures p !in h.counted && Inv(h, {p}) && Shrunk(h, h, {p})
  {}

  /** Copy assignment between pointers to different objects, in a pool without cycles, leaves every
      count right and no pointer dangling exactly when the right-hand side is null or its object is also
      reached from outside the pool without the pointer assigned to. Otherwise the release destroys it
      and the pointer dangles. */
  lemma CopyAssignExact(h: Heap, p: Ptr, src: Ptr, rank: Slot -> nat)
    requires Good(h) && Acyclic(h, rank) && Exists(h, p) && Exists(h, src) && h.Target(p) != h.Target(src)
    requires h.Target(src).Some? ==> |h.Holders(h.Target(src).value)| < 255
    ensures Good(CopyAssign(h, p, src)) <==> h.Target(src).None? || Rooted(h, {p}, h.Target(src).value)
    ensures CopyAssign(h, p, src).Target(p) == h.Target(src)
    ensures !Good(CopyAssign(h, p, src)) ==> Dangling(CopyAssign(h, p, src), p)
  {
    hide Inv, Acyclic, Shrunk, Rooted;
    var r := Release(h, p);
    if h.Target(p).Some? { ReleasedKeeps(h, p, rank); } else { NullKeeps(h, p); }
    SameFields(h, r, p, src);
    if h.Target(src).None? {
      AttachNull(r, p);
    } else {
      var t := h.Target(src).value;
      Remains(h, p, rank, t);
      if t in r.objects {
        FewerHolders(h, r, p, t);
        AttachKeeps(r, p, t);
      } else {
        AttachDangles(r, p, t);
      }
    }
  }

  lemma SameFields(h: Heap, r: Heap, p: Ptr, src: Ptr)
    requires Shrunk(h, r, {p})
    ensures r.Target(src) == h.Target(src) && p !in r.counted
  {}

  lemma Remains(h: Heap, p: Ptr, rank: Slot -> nat, t: Slot)
    requires Good(h) && Acyclic(h, rank) && Exists(h, p)
    ensures t in Release(h, p).objects <==> Rooted(h, {p}, t)
  {
    if h.Target(p).Some? {
      ReleaseExact(h, p, rank, t);
    } else {
      NullKeeps(h, p);
      if t in h.objects { var qs := RootOf(h, {p}, rank, t); }
      if Rooted(h, {p}, t) {
        var qs :| Path(h, {p}, qs, t);
        PathSurvives(h, h, p, qs, t, |qs| - 1);
      }
    }
  }

  /** A right-hand side outside the pool is always safe. */
  lemma LooseSourceIsSafe(h: Heap, p: Ptr, src: Ptr, rank: Slot -> nat)
    requires Good(h) && Acyclic(h, rank) && Exists(h, p) && Exists(h, src) && h.Target(p) != h.Target(src)
    requires h.Target(src).Some? ==> |h.Holders(h.Target(src).value)| < 255
    requires h.Loose(src)
    ensures Good(CopyAssign(h, p, src))
  {
    if h.Target(src).Some? { assert Path(h, {p}, [src], h.Target(src).value); }
    CopyAssignExact(h, p, src, rank);
  }

  /** `p = p->next` where both references are the only ones: the next object dies with the first. */
  lemma StepToNextDangles(h: Heap, p: Ptr, src: Ptr, s: Slot, t: Slot, rank: Slot -> nat)
    requires Good(h) && Acyclic(h, rank) && Exists(h, p) && Exists(h, src)
    requires h.Target(p) == Some(s) && h.Owns(s, src) && h.Target(src) == Some(t)
    requires h.Holders(s) == {p} && h.Holders(t) == {src}
    ensures Dangling(CopyAssign(h, p, src), p)
  {
    hide Path, Good, Acyclic;
    assert rank(s) < rank(t) by { OwnersRank(h, rank, s, src); }
    forall qs ensures !Path(h, {p}, qs, t) {
      if Path(h, {p}, qs, t) { LastButOne(h, p, qs, s, src, t); }
    }
    CopyAssignExact(h, p, src, rank);
  }

  lemma OwnersRank(h: Heap, rank: Slot -> nat, s: Slot, q: Ptr)
    requires Acyclic(h, rank) && h.Owns(s, q) && h.Target(q).Some?
    ensures rank(s) < rank(h.Target(q).value)
  {}

  /** The only way to an object held by one member leads through its owner. */
  lemma LastButOne(h: Heap, p: Ptr, qs: seq<Ptr>, s: Slot, src: Ptr, t: Slot)
    requires Good(h) && Path(h, {p}, qs, t) && h.Owns(s, src) && h.Holders(t) == {src}
    ensures exists q :: q in h.Holders(s) && q != p
  {
    assert qs[|qs| - 1] in h.Holders(t);
    var q := qs[|qs| - 2];
    assert LeadsTo(h, q, src);
    assert q in h.Holders(s);
  }

  function Listed(): Heap {
    Heap({1, 2}, map[1 := 1, 2 := 1], map[1 := [11], 2 := [12]], map[10 := Some(1), 11 := Some(2), 12 := None], {10, 11})
  }

  lemma ListedFacts()
    ensures forall s :: Listed().Holders(s) == if s == 1 then {10} else if s == 2 then {11} else {}
    ensures forall s, q :: Listed().Owns(s, q) <==> (s == 1 && q == 11) || (s == 2 && q == 12)
    ensures Listed().Target(10) == Some(1) && Listed().Target(11) == Some(2) && Listed().Target(12) == None
    ensures forall s :: Listed().CountOf(s) == if s == 1 || s == 2 then 1 else 0
    ensures Listed().bits == Listed().objects.Keys == {1, 2} && Listed().counted == {10, 11}
    ensures forall s :: s in Listed().objects ==> NoRepeats(Listed().objects[s])
  {}

  lemma ListedIsGood()
    ensures Good(Listed())
  {
    ListedFacts();
    hide Listed;
  }

  /** It happens to a list of two objects that one pointer holds. */
  lemma ListOfTwo()
    ensures Good(Listed()) && Dangling(CopyAssign(Listed(), 10, 11), 10)
  {
    hide Good, Dangling;
    ListedIsGood();
    ListedFacts();
    StepToNextDangles(Listed(), 10, 11, 1, 2, s => if s == 1 then 0 else 1);
  }

  /** The limit of 255 references to one object is exact here as well: one more is still counted right if and
      only if fewer are held. */
  lemma LimitIsExact(h: Heap, p: Ptr, t: Slot)
    requires h.CountOf(t) == |h.Holders(t)| <= 255 && p !in h.counted
    ensures var r := Attach(h, p, Some(t)); r.CountOf(t) == |r.Holders(t)| <==> |h.Holders(t)| < 255
  {
    assert Attach(h, p, Some(t)).Holders(t) == h.Holders(t) + {p};
  }
}
