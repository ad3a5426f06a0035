/** The allocator object: `linear_allocator<B, S, G>` with its list of free ranges edited in place. */
module LinearAllocator {
  import opened Wrappers
  import opened Bits
  import opened Alignment
  import opened FreeRanges
  import opened RangeOperations
  import opened AllocatorLaws

  /** `std::upper_bound` on a sorted list. */
  method UpperBound(rs: seq<Range>, key: Range) returns (k: nat)
    requires Canonical(rs)
    ensures k == UpperIndex(rs, key)
  {
    var lo, hi := 0, |rs|;
    while lo < hi
      invariant 0 <= lo <= hi <= |rs|
      invariant forall j :: 0 <= j < lo ==> !Less(key, rs[j])
      invariant forall j :: hi <= j < |rs| ==> Less(key, rs[j])
    {
      var mid := (lo + hi) / 2;
      if Less(key, rs[mid]) { hi := mid; } else { lo := mid + 1; }
    }
    k := lo;
    UpperIndexIs(rs, key, k);
  }

  class LinearAllocator {
    var freeRanges: seq<Range>
    const c: Config
    ghost var live: set<Range>
    /** How often `on_allocator_freed` has been called. */
    var freedCalls: nat

    ghost function State(): Memory
      reads this
    {
      Memory(freeRanges, live, freedCalls)
    }

    ghost predicate Valid()
      reads this
    {
      c.Ok() && Good(c, State())
    }

    constructor (c: Config)
      requires c.Ok()
      ensures Valid() && this.c == c && State() == Memory([Range(0, c.full)], {}, 0)
    {
      this.c := c;
      freeRanges, live, freedCalls := [Range(0, c.full)], {}, 0;
      new;
      FreshIsGood(c);
    }

    /** The partition survives the call whenever it is `Legal`; see `Apply` for what it computes. */
    method Allocate(size: nat, align: nat) returns (r: Option<Range>)
      requires Valid() && Callable(c, State(), Op.Allocate(size, align))
      modifies this
      ensures (State(), r) == old(Apply(c, State(), Op.Allocate(size, align)))
      ensures old(Legal(c, State(), Op.Allocate(size, align))) ==> Valid()
    {
      ghost var op := Op.Allocate(size, align);
      assert Legal(c, State(), op) ==> Good(c, Apply(c, State(), op).0) by {
        if Legal(c, State(), op) { OperationKeepsPartition(c, State(), op); }
      }
      GoodFitsWord(c, State());
      var rounded, a := AlignUp(size, c.g, c.w), Max(align, c.g);
      if rounded > c.full {
        return None;
      }
      r := Search(rounded, a);
    }

    /** The search loop: the first range with room, for an already rounded size and alignment. */
    method Search(size: nat, align: nat) returns (r: Option<Range>)
      requires 0 < align < Pow2(c.w) && forall r :: r in freeRanges ==> r.begin < Pow2(c.w)
      modifies this`freeRanges, this`live
      ensures Outcome(r, freeRanges) == old(FitFrom(freeRanges, size, align, c.w, 0))
      ensures live == if r.Some? then old(live) + {r.value} else old(live)
    {
      var i := 0;
      while i < |freeRanges|
        invariant 0 <= i <= |freeRanges| && freeRanges == old(freeRanges) && live == old(live)
        invariant FitFrom(freeRanges, size, align, c.w, i) == FitFrom(freeRanges, size, align, c.w, 0)
      {
        var begin, end := freeRanges[i].begin, freeRanges[i].end;
        var adjustedBegin := AlignUp(begin, align, c.w);
        var adjustedEnd := (adjustedBegin + size) % Pow2(c.w);
        if adjustedEnd <= end {
          CutOut(i, adjustedBegin, adjustedEnd);
          live := live + {Range(adjustedBegin, adjustedEnd)};
          return Some(Range(adjustedBegin, adjustedEnd));
        }
        i := i + 1;
      }
      return None;
    }

    /** The edits of the list at the range chosen by the search. */
    method CutOut(i: nat, adjustedBegin: nat, adjustedEnd: nat)
      requires i < |freeRanges|
      modifies this`freeRanges
      ensures freeRanges == Carve(old(freeRanges), i, adjustedBegin, adjustedEnd)
    {
      var begin, end := freeRanges[i].begin, freeRanges[i].end;
      var usedInplace := false;
      if adjustedEnd < end {
        freeRanges := freeRanges[i := Range(adjustedEnd, end)];
        usedInplace := true;
      }
      if adjustedBegin > begin {
        if !usedInplace {
          freeRanges := freeRanges[i := Range(begin, adjustedBegin)];
          usedInplace := true;
        } else {
          freeRanges := freeRanges[..i] + [Range(begin, adjustedBegin)] + freeRanges[i..];
        }
      }
      if !usedInplace {
        freeRanges := freeRanges[..i] + freeRanges[i + 1..];
      }
    }

    method AllocateAll() returns (r: Range)
      requires Valid() && Callable(c, State(), Op.AllocateAll)
      modifies this
      ensures Valid() && (State(), Some(r)) == old(Apply(c, State(), Op.AllocateAll))
    {
      OperationKeepsPartition(c, State(), Op.AllocateAll);
      freeRanges := [];
      live := if c.full > 0 then {Range(0, c.full)} else {};
      r := Range(0, c.full);
    }

    method Grow(range: Range, addendum: nat) returns (r: Option<Range>)
      requires Valid() && Callable(c, State(), Op.Grow(range, addendum))
      modifies this
      ensures (State(), r) == old(Apply(c, State(), Op.Grow(range, addendum)))
      ensures old(Legal(c, State(), Op.Grow(range, addendum))) ==> Valid()
    {
      if Legal(c, State(), Op.Grow(range, addendum)) { OperationKeepsPartition(c, State(), Op.Grow(range, addendum)); }
      if addendum == 0 {
        live := live - {range} + {range};
        return Some(range);
      }
      var k := UpperBound(freeRanges, range);
      if k == |freeRanges| {
        return None;
      }
      if freeRanges[k].begin != range.end {
        return None;
      }
      var desiredEnd := (range.end + AlignUp(addendum, c.g, c.w)) % Pow2(c.w);
      if freeRanges[k].end < desiredEnd {
        return None;
      }
      if freeRanges[k].end == desiredEnd {
        freeRanges := freeRanges[..k] + freeRanges[k + 1..];
      } else {
        freeRanges := freeRanges[k := freeRanges[k].(begin := desiredEnd)];
      }
      live := live - {range} + {Range(range.begin, desiredEnd)};
      return Some(Range(range.begin, desiredEnd));
    }

    method Free(range: Range)
      requires Valid() && Callable(c, State(), Op.Free(range))
      modifies this
      ensures Valid() && State() == old(Apply(c, State(), Op.Free(range)).0)
    {
      OperationKeepsPartition(c, State(), Op.Free(range));
      var i := UpperBound(freeRanges, range);
      PutBack(i, range);
      live := live - {range};
      var free := IsFree();
      if free {
        freedCalls := freedCalls + 1;
      }
    }

    /** Insertion at `k`, then merging with the next and the previous range. */
    method PutBack(k: nat, range: Range)
      requires k <= |freeRanges|
      modifies this`freeRanges
      ensures freeRanges == Coalesce(old(freeRanges), k, range)
    {
      ghost var rs, hi := freeRanges, if k < |freeRanges| && freeRanges[k].begin == range.end then k + 1 else k;
      ghost var end := if k < hi then rs[k].end else range.end;
      freeRanges := freeRanges[..k] + [range] + freeRanges[k..];
      assert freeRanges[..k] == rs[..k] && freeRanges[k + 1..] == rs[k..];
      if k + 1 < |freeRanges| && freeRanges[k + 1].begin == range.end {
        freeRanges := freeRanges[k := Range(range.begin, freeRanges[k + 1].end)];
        freeRanges := freeRanges[..k + 1] + freeRanges[k + 2..];
      }
      assert freeRanges == rs[..k] + [Range(range.begin, end)] + rs[hi..];
      if k > 0 && freeRanges[k - 1].end == range.begin {
        freeRanges := freeRanges[k := freeRanges[k].(begin := freeRanges[k - 1].begin)];
        freeRanges := freeRanges[..k - 1] + freeRanges[k..];
      }
    }

    method Reset()
      requires Valid()
      modifies this
      ensures Valid() && State() == old(Apply(c, State(), Op.Reset).0)
    {
      OperationKeepsPartition(c, State(), Op.Reset);
      var free := IsFree();
      if !free {
        freeRanges := [Range(0, c.full)];
        live := {};
        freedCalls := freedCalls + 1;
      }
    }

    /** `is_free()`: exact as long as there is any memory at all. */
    method IsFree() returns (free: bool)
      ensures free <==> AllocatorLaws.IsFree(c, State())
      ensures Valid() && c.full > 0 ==> (free <==> live == {})
    {
      if Valid() && c.full > 0 { IsFreeExact(c, State()); }
      free := |freeRanges| == 1 && freeRanges[0] == Range(0, c.full);
    }
  }
}
