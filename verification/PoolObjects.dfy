/** `fixed_pool` and `refcnt_ptr` as one thread sees them: a pool over the bitmap and the 8-bit counts,
    and pointers that change the counts as they are copied, moved, reset and destroyed. The pooled
    objects hold no pointers themselves here; `PoolOwnership` is about those that do. */
module PoolObjects {
  import opened Wrappers
  import opened Bitset

  class FixedPool {
    const n: nat
    const used: Bitset
    const counts: array<nat>
    /** The slots whose object is constructed, or handed out if the pool is reusable. */
    ghost var alive: set<nat>

    ghost predicate Valid()
      reads this, used, used.data, counts
    {
      && 0 < n <= SIZE_MAX && used.Valid() && used.n == n && counts.Length == n && counts != used.data
      && alive == used.Contents()
      && forall s :: 0 <= s < n ==> counts[s] <= 255 && (counts[s] > 0 <==> s in alive)
    }

    constructor (n: nat)
      requires 0 < n <= SIZE_MAX
      ensures Valid() && this.n == n && alive == {} && fresh(used) && fresh(used.data) && fresh(counts)
    {
      this.n := n;
      used := new Bitset(n, false);
      counts := new nat[n](_ => 0);
      alive := {};
    }

    /** `allocate`: the least free slot. When the constructor throws, the bit is cleared again. */
    method Allocate(throws: bool) returns (slot: Option<nat>, thrown: bool)
      requires Valid()
      modifies this`alive, used.data, counts
      ensures Valid()
      ensures if Full(old(alive), n) then slot == None && !thrown && alive == old(alive) && counts[..] == old(counts[..])
              else if throws then slot == None && thrown && alive == old(alive) && counts[..] == old(counts[..])
              else
                && !thrown && slot.Some? && LeastAbsent(old(alive), n, slot.value)
                && alive == old(alive) + {slot.value} && counts[..] == old(counts[..])[slot.value := 1]
    {
      var pos := used.OccupyZero();
      if pos == SIZE_MAX {
        return None, false;
      }
      if throws {
        used.Clear(pos);
        return None, true;
      }
      alive := alive + {pos};
      counts[pos] := 1;
      return Some(pos), false;
    }

    method FreeSpace() returns (free: nat)
      requires Valid()
      ensures free == n - |alive|
    {
      var taken := used.Popcount();
      SizeWithin(alive, n);
      free := n - taken;
    }

    /** The life cycle function when a reference is taken. */
    method AcquireRef(id: nat)
      requires Valid() && id in alive && counts[id] < 255
      modifies counts
      ensures Valid() && counts[..] == old(counts[..])[id := old(counts[id]) + 1]
    {
      MembersAreSlots(used);
      counts[id] := (counts[id] + 1) % 256;
    }

    /** The life cycle function when a reference is given up: the last one ends the object, and only
        then is the bit cleared. */
    method ReleaseRef(id: nat)
      requires Valid() && id in alive
      modifies this`alive, used.data, counts
      ensures Valid() && counts[..] == old(counts[..])[id := old(counts[id]) - 1]
      ensures alive == if old(counts[id]) == 1 then old(alive) - {id} else old(alive)
    {
      MembersAreSlots(used);
      var oldCount := counts[id];
      counts[id] := (oldCount + 255) % 256;
      if oldCount != 1 {
        return;
      }
      alive := alive - {id};
      used.Clear(id);
    }

    /** What the destructor requires. */
    method IsUnused() returns (unused: bool)
      requires Valid()
      ensures unused <==> alive == {}
    {
      var taken := used.Popcount();
      unused := taken == 0;
    }
  }

  lemma MembersAreSlots(b: Bitset)
    requires b.Valid()
    ensures forall s :: s in b.Contents() ==> s < b.n
  {}

  lemma {:induction false} SizeWithin(s: set<nat>, n: nat)
    requires forall k :: k in s ==> k < n
    ensures |s| <= n
  {
    if n > 0 {
      SizeWithin(s - {n - 1}, n - 1);
    } else {
      assert s == {};
    }
  }

  // ---- pointers

  /** The pointers to a slot. */
  ghost function Holders(ptrs: set<RefcntPtr>, s: nat): set<RefcntPtr>
    reads ptrs
  {
    set p | p in ptrs && p.target == Some(s)
  }

  /** `ptrs` are all the pointers into the pool, and each count is the number of those to its slot. */
  ghost predicate Counted(pool: FixedPool, ptrs: set<RefcntPtr>)
    reads pool, pool.used, pool.used.data, pool.counts, ptrs
  {
    && pool.Valid()
    && (forall p :: p in ptrs ==> p.pool == pool && (p.target.Some? ==> p.target.value < pool.n))
    && forall s :: 0 <= s < pool.n ==> pool.counts[s] == |Holders(ptrs, s)|
  }

  lemma HolderIsAlive(pool: FixedPool, ptrs: set<RefcntPtr>, p: RefcntPtr)
    requires Counted(pool, ptrs) && p in ptrs && p.target.Some?
    ensures p.target.value in pool.alive && 1 <= pool.counts[p.target.value] <= 255
    ensures p in Holders(ptrs, p.target.value)
  {
    assert p in Holders(ptrs, p.target.value);
  }

  /** The pool may be destroyed exactly when every pointer is null. */
  lemma UnusedIsExact(pool: FixedPool, ptrs: set<RefcntPtr>)
    requires Counted(pool, ptrs)
    ensures pool.alive == {} <==> forall p :: p in ptrs ==> p.target.None?
  {
    forall p | p in ptrs && p.target.Some? ensures pool.alive != {} { HolderIsAlive(pool, ptrs, p); }
    if forall p :: p in ptrs ==> p.target.None? {
      forall s ensures s !in pool.alive {
        assert Holders(ptrs, s) == {};
        MembersAreSlots(pool.used);
      }
    }
  }

  class RefcntPtr {
    const pool: FixedPool
    var target: Option<nat>

    /** A null pointer. */
    constructor (pool: FixedPool)
      ensures this.pool == pool && target == None
    {
      this.pool, target := pool, None;
    }

    /** `fixed_pool::allocate`: a pointer to the least free slot, or a null one when there is none; and no
        pointer at all when the constructor throws. */
    static method Allocate(pool: FixedPool, throws: bool, ghost ptrs: set<RefcntPtr>)
      returns (ptr: RefcntPtr?, thrown: bool)
      requires Counted(pool, ptrs)
      modifies pool`alive, pool.used.data, pool.counts
      ensures thrown <==> throws && !Full(old(pool.alive), pool.n)
      ensures thrown ==> ptr == null && Counted(pool, ptrs) && pool.alive == old(pool.alive)
      ensures !thrown ==> ptr != null && fresh(ptr) && ptr.pool == pool && Counted(pool, ptrs + {ptr})
      ensures !thrown && Full(old(pool.alive), pool.n) ==> ptr.target == None && pool.alive == old(pool.alive)
      ensures !thrown && !Full(old(pool.alive), pool.n) ==>
        ptr.target.Some? && LeastAbsent(old(pool.alive), pool.n, ptr.target.value)
        && pool.alive == old(pool.alive) + {ptr.target.value}
    {
      hide Holders, Full, LeastAbsent;
      var slot;
      slot, thrown := pool.Allocate(throws);
      if thrown {
        return null, thrown;
      }
      ptr := new RefcntPtr(pool);
      ptr.target := slot;
      SetApart(ptrs + {ptr}, ptr);
      assert ptrs + {ptr} - {ptr} == ptrs;
    }

    constructor Move(other: RefcntPtr, ghost ptrs: set<RefcntPtr>)
      requires Counted(other.pool, ptrs) && other in ptrs
      modifies other
      ensures pool == other.pool && target == old(other.target) && other.target == None
      ensures Counted(pool, ptrs + {this}) && pool.alive == old(other.pool.alive)
    {
      pool := other.pool;
      target := other.target;
      new;
      hide Holders;
      SetApart(ptrs, other);
      other.target := None;
      SetApart(ptrs, other);
      SetApart(ptrs + {this}, this);
      assert ptrs + {this} - {this} == ptrs;
    }

    constructor Copy(other: RefcntPtr, ghost ptrs: set<RefcntPtr>)
      requires Counted(other.pool, ptrs) && other in ptrs
      requires other.target.Some? ==> |Holders(ptrs, other.target.value)| < 255
      modifies other.pool.counts
      ensures pool == other.pool && target == other.target
      ensures Counted(pool, ptrs + {this}) && pool.alive == old(other.pool.alive)
    {
      pool := other.pool;
      target := other.target;
      new;
      hide Holders;
      if target.Some? {
        HolderIsAlive(pool, ptrs, other);
        pool.AcquireRef(target.value);
      }
      SetApart(ptrs + {this}, this);
      assert ptrs + {this} - {this} == ptrs;
    }

    /** Move assignment swaps, with itself as well. */
    method MoveAssign(other: RefcntPtr, ghost ptrs: set<RefcntPtr>)
      requires Counted(pool, ptrs) && this in ptrs && other in ptrs
      modifies this, other
      ensures Counted(pool, ptrs) && target == old(other.target) && other.target == old(target)
    {
      var mine := target;
      target := other.target;
      other.target := mine;
      forall s | 0 <= s < pool.n ensures pool.counts[s] == |Holders(ptrs, s)| {
        Renamed(old(Holders(ptrs, s)), Holders(ptrs, s), this, other);
      }
    }

    /** Gives up the reference and leaves the pointer null. */
    method Reset(ghost ptrs: set<RefcntPtr>)
      requires Counted(pool, ptrs) && this in ptrs
      modifies this, pool`alive, pool.used.data, pool.counts
      ensures Counted(pool, ptrs) && target == None
      ensures pool.alive == if old(target).Some? && old(Holders(ptrs, target.value)) == {this} then old(pool.alive) - {old(target).value}
                            else old(pool.alive)
    {
      hide Holders;
      SetApart(ptrs, this);
      if target.Some? {
        HolderIsAlive(pool, ptrs, this);
        LastHolder(Holders(ptrs, target.value), this);
        pool.ReleaseRef(target.value);
      }
      target := None;
      SetApart(ptrs, this);
    }

    /** The destructor. */
    method Destroy(ghost ptrs: set<RefcntPtr>)
      requires Counted(pool, ptrs) && this in ptrs
      modifies this, pool`alive, pool.used.data, pool.counts
      ensures Counted(pool, ptrs - {this})
    {
      Reset(ptrs);
      SetApart(ptrs, this);
    }

    /** Copy assignment: nothing to do between pointers to one object, and so with itself; otherwise
        the old reference is given up before the new one is taken. */
    method CopyAssign(other: RefcntPtr, ghost ptrs: set<RefcntPtr>)
      requires Counted(pool, ptrs) && this in ptrs && other in ptrs
      requires other.target.Some? && target != other.target ==> |Holders(ptrs, other.target.value)| < 255
      modifies this, pool`alive, pool.used.data, pool.counts
      ensures Counted(pool, ptrs) && target == old(other.target)
    {
      if target == other.target {
        return;
      }
      SetApart(ptrs, this);
      Reset(ptrs);
      SetApart(ptrs, this);
      Attach(other, ptrs);
    }

    /** A null pointer takes a reference to the object of another. */
    method Attach(other: RefcntPtr, ghost ptrs: set<RefcntPtr>)
      requires Counted(pool, ptrs) && this in ptrs && other in ptrs && target == None
      requires other.target.Some? ==> |Holders(ptrs, other.target.value)| < 255
      modifies this, pool.counts
      ensures Counted(pool, ptrs) && target == old(other.target)
    {
      hide Holders;
      SetApart(ptrs, this);
      if other.target.Some? {
        HolderIsAlive(pool, ptrs, other);
        pool.AcquireRef(other.target.value);
      }
      target := other.target;
      SetApart(ptrs, this);
    }
  }

  /** One pointer set apart from the others: changing it leaves the holders among those. */
  lemma SetApart(ptrs: set<RefcntPtr>, p: RefcntPtr)
    requires p in ptrs
    ensures forall s: nat :: |Holders(ptrs, s)| == |Holders(ptrs - {p}, s)| + if p.target == Some(s) then 1 else 0
  {
    forall s: nat ensures Holders(ptrs, s) == Holders(ptrs - {p}, s) + (if p.target == Some(s) then {p} else {}) {}
  }

  lemma LastHolder(hs: set<RefcntPtr>, p: RefcntPtr)
    requires p in hs
    ensures |hs| == 1 <==> hs == {p}
  {
    assert |hs - {p}| == |hs| - 1;
  }

  /** The size of a set of pointers after two of them swapped places. */
  lemma Renamed(hs: set<RefcntPtr>, after: set<RefcntPtr>, p: RefcntPtr, q: RefcntPtr)
    requires forall h :: h != p && h != q ==> (h in after <==> h in hs)
    requires (p in after <==> q in hs) && (q in after <==> p in hs)
    ensures |after| == |hs|
  {
    if p in hs && q !in hs {
      assert after == hs - {p} + {q};
    } else if q in hs && p !in hs {
      assert after == hs - {q} + {p};
    } else {
      assert after == hs;
    }
  }
}
