/** The allocator as an object: a state machine over its operations and the laws its runs obey. */
module AllocatorLaws {
  import opened Wrappers
  import opened Bits
  import opened Alignment
  import opened FreeRanges
  import opened RangeOperations

  /** Template and constructor parameters: full size, granularity and the width of the size type. */
  datatype Config = Config(full: nat, g: nat, w: nat) {
    ghost predicate Ok() {
      w > 0 && IsPow2(g) && g < Pow2(w) && full <= (Pow2(w) - 1) / 2
    }
  }

  /** The free list, the ranges handed out and not freed yet, and how often the "allocator became
      free" callback has run. */
  datatype Memory = Memory(ranges: seq<Range>, live: set<Range>, calls: nat)

  datatype Op =
    | Allocate(size: nat, align: nat)
    | AllocateAll
    | Grow(range: Range, addendum: nat)
    | Free(range: Range)
    | Reset

  predicate IsFree(c: Config, m: Memory) {
    m.ranges == [Range(0, c.full)]
  }

  /** What the source asserts of its caller, with frees and grows of live ranges only. */
  ghost predicate Callable(c: Config, m: Memory, op: Op) {
    match op
    case Allocate(size, align) => 0 < size < Pow2(c.w) && 0 < align < Pow2(c.w)
    case AllocateAll => IsFree(c, m)
    case Grow(range, addendum) => range in m.live && addendum < Pow2(c.w)
    case Free(range) => range in m.live
    case Reset => true
  }

  /** Callable, and every intermediate sum representable: the alignment a power of two, the rounded
      size and the grown end inside the word. */
  ghost predicate Legal(c: Config, m: Memory, op: Op)
    requires c.Ok()
  {
    Callable(c, m, op) &&
    match op
    case Allocate(size, align) => IsPow2(align) && size <= Pow2(c.w) - 1 - (c.g - 1)
    case Grow(range, addendum) => range.end + RoundUp(addendum, c.g) < Pow2(c.w)
    case _ => true
  }

  ghost predicate Good(c: Config, m: Memory)
    requires c.Ok()
  {
    if c.full == 0 then m.live == {} && (m.ranges == [] || m.ranges == [Range(0, 0)])
    else Partition(m.ranges, m.live, c.full, c.g)
  }

  lemma GoodFitsWord(c: Config, m: Memory)
    requires c.Ok() && Good(c, m)
    ensures forall r :: r in m.ranges ==> r.begin < Pow2(c.w)
  {
    forall r | r in m.ranges ensures r.begin < Pow2(c.w) {
      var i :| 0 <= i < |m.ranges| && m.ranges[i] == r;
    }
  }

  function Callback(c: Config, m: Memory): Memory {
    if IsFree(c, m) then m.(calls := m.calls + 1) else m
  }

  /** The state after `op` and the range it returns. */
  ghost function Apply(c: Config, m: Memory, op: Op): (Memory, Option<Range>)
    requires c.Ok() && Good(c, m) && Callable(c, m, op)
  {
    match op
    case Allocate(size, align) =>
      GoodFitsWord(c, m);
      var o := AllocateOn(m.ranges, c.full, c.g, c.w, size, align);
      (Memory(o.ranges, if o.result.Some? then m.live + {o.result.value} else m.live, m.calls), o.result)
    case AllocateAll =>
      (Memory([], if c.full > 0 then {Range(0, c.full)} else {}, m.calls), Some(Range(0, c.full)))
    case Grow(range, addendum) =>
      var o := GrowOn(m.ranges, c.g, c.w, range, addendum);
      (Memory(o.ranges, if o.result.Some? then m.live - {range} + {o.result.value} else m.live, m.calls), o.result)
    case Free(range) =>
      (Callback(c, Memory(FreeOn(m.ranges, range), m.live - {range}, m.calls)), None)
    case Reset =>
      (if IsFree(c, m) then m else Memory([Range(0, c.full)], {}, m.calls + 1), None)
  }

  // ---- single operations keep the partition

  lemma WholeIsFree(full: nat, g: nat)
    requires g > 0 && full > 0
    ensures Partition([Range(0, full)], {}, full, g)
    ensures Partition([], {Range(0, full)}, full, g)
  {
    forall x | 0 <= x < full ensures Covers([Range(0, full)], x) && LiveAt({Range(0, full)}, x) {
      SingletonCovers(Range(0, full), x);
      assert Range(0, full) in {Range(0, full)} && Range(0, full).Has(x);
    }
  }

  /** `is_free()` is exact: the list is the one full range just when nothing is live. */
  lemma IsFreeExact(c: Config, m: Memory)
    requires c.Ok() && Good(c, m) && c.full > 0
    ensures IsFree(c, m) <==> m.live == {}
  {
    WholeIsFree(c.full, c.g);
    if m.live == {} {
      forall x ensures Covers(m.ranges, x) <==> Covers([Range(0, c.full)], x) {
        SingletonCovers(Range(0, c.full), x);
        if Covers(m.ranges, x) { FreePointsInside(m.ranges, c.full, x); }
        assert !LiveAt(m.live, x);
      }
      CanonicalUnique(m.ranges, [Range(0, c.full)]);
    } else if IsFree(c, m) {
      var r :| r in m.live;
      assert r.Has(r.begin);
      assert LiveAt(m.live, r.begin);
      SingletonCovers(Range(0, c.full), r.begin);
    }
  }

  lemma AllocateKeeps(c: Config, m: Memory, size: nat, align: nat)
    requires c.Ok() && Good(c, m) && Legal(c, m, Allocate(size, align))
    ensures Good(c, Apply(c, m, Allocate(size, align)).0)
  {
    GoodFitsWord(c, m);
    var o := AllocateOn(m.ranges, c.full, c.g, c.w, size, align);
    if c.full == 0 {
      AlignUpRounds(size, c.g, c.w);
    } else {
      AllocateIsFirstFit(m.ranges, c.full, c.g, c.w, size, align);
      if o.result.Some? {
        AllocatedIsLive(m.ranges, c.full, c.g, RoundUp(size, c.g), align, o);
        TakePartition(m.ranges, m.live, o.result.value, o.ranges, c.full, c.g);
      }
    }
  }

  lemma AllocatedIsLive(rs: seq<Range>, full: nat, g: nat, size: nat, align: nat, o: Outcome)
    requires IsPow2(g) && IsPow2(align) && Within(rs, full) && size > 0 && size % g == 0
    requires FirstFit(rs, size, Max(align, g), o) && o.result.Some?
    ensures LiveRange(o.result.value, full, g)
  {
    var r := o.result.value;
    MultipleOfSmaller(r.begin, g, Max(align, g));
    var i := IntervalInOne(rs, r.begin, r.end);
    SumOfMultiples(r.begin, size, g);
  }

  lemma SumOfMultiples(p: nat, q: nat, g: nat)
    requires g > 0 && p % g == 0 && q % g == 0
    ensures (p + q) % g == 0
  {
    assert p == g * (p / g) && q == g * (q / g);
    assert p + q == g * (p / g + q / g);
    ModIs(p + q, g, p / g + q / g, 0);
  }

  lemma GrowKeeps(c: Config, m: Memory, range: Range, addendum: nat)
    requires c.Ok() && Good(c, m) && Legal(c, m, Grow(range, addendum))
    ensures Good(c, Apply(c, m, Grow(range, addendum)).0)
  {
    hide RoundUp, Covers, Canonical, Taken, Partition, Pow2;
    if addendum == 0 {
      assert m.live - {range} + {range} == m.live;
    } else {
      var end := range.end + RoundUp(addendum, c.g);
      LiveIsDisjoint(m.ranges, m.live, c.full, c.g, range);
      LiveNotEmpty(c, m, range);
      GrowIsExact(m.ranges, c.full, c.g, c.w, range, addendum);
      var o := GrowOn(m.ranges, c.g, c.w, range, addendum);
      if o.result.Some? {
        RoundUpGrows(addendum, c.g);
        GrownPartition(m.ranges, m.live, c, range, end, o.ranges);
      }
    }
  }

  lemma LiveNotEmpty(c: Config, m: Memory, range: Range)
    requires c.Ok() && Good(c, m) && range in m.live
    ensures c.full > 0 && Within(m.ranges, c.full) && range.begin < range.end
  {}

  lemma GrownPartition(rs: seq<Range>, live: set<Range>, c: Config, range: Range, end: nat, after: seq<Range>)
    requires c.Ok() && Partition(rs, live, c.full, c.g) && range in live && range.end < end && (end - range.end) % c.g == 0
    requires CoversAll(rs, range.end, end) && Taken(rs, Range(range.end, end), after)
    ensures Partition(after, live - {range} + {Range(range.begin, end)}, c.full, c.g)
  {
    hide Partition, Covers, Canonical, Taken;
    var more := Range(range.end, end);
    ExtensionIsLive(rs, live, c.full, c.g, range, end);
    TakePartition(rs, live, more, after, c.full, c.g);
    JoinPartition(after, live + {more}, range, more, c.full, c.g);
    assert live + {more} - {range, more} == live - {range};
  }

  lemma ExtensionIsLive(rs: seq<Range>, live: set<Range>, full: nat, g: nat, range: Range, end: nat)
    requires g > 0 && Partition(rs, live, full, g) && range in live
    requires range.end < end && (end - range.end) % g == 0 && CoversAll(rs, range.end, end)
    ensures LiveRange(Range(range.end, end), full, g)
  {
    var i := IntervalInOne(rs, range.end, end);
    SumOfMultiples(range.end, end - range.end, g);
  }

  /** Every legal operation keeps live and free ranges a partition of the memory. */
  lemma OperationKeepsPartition(c: Config, m: Memory, op: Op)
    requires c.Ok() && Good(c, m) && Legal(c, m, op)
    ensures Good(c, Apply(c, m, op).0)
  {
    if c.full > 0 { WholeIsFree(c.full, c.g); }
    match op
    case Allocate(size, align) => AllocateKeeps(c, m, size, align);
    case Grow(range, addendum) => GrowKeeps(c, m, range, addendum);
    case Free(range) => GivePartition(m.ranges, m.live, range, FreeOn(m.ranges, range), c.full, c.g);
    case _ =>
  }

  // ---- whole runs

  lemma FreshIsGood(c: Config)
    requires c.Ok()
    ensures Good(c, Memory([Range(0, c.full)], {}, 0))
  {
    if c.full > 0 { WholeIsFree(c.full, c.g); }
  }

  /** The states `ms` of a run of `ops` from a new allocator, each operation legal where it starts. */
  ghost predicate IsRun(c: Config, ms: seq<Memory>, ops: seq<Op>)
    requires c.Ok()
  {
    && |ms| == |ops| + 1 && ms[0] == Memory([Range(0, c.full)], {}, 0)
    && forall i :: 0 <= i < |ops| ==>
         Legal(c, ms[i], ops[i]) && (Good(c, ms[i]) ==> ms[i + 1] == Apply(c, ms[i], ops[i]).0)
  }

  lemma {:induction false} RunKeepsPartition(c: Config, ms: seq<Memory>, ops: seq<Op>, i: nat)
    requires c.Ok() && IsRun(c, ms, ops) && i < |ms|
    ensures Good(c, ms[i])
  {
    if i == 0 {
      FreshIsGood(c);
    } else {
      RunKeepsPartition(c, ms, ops, i - 1);
      OperationKeepsPartition(c, ms[i - 1], ops[i - 1]);
    }
  }

  /** The callback runs exactly on the frees and resets that leave nothing live. */
  lemma CallbackExact(c: Config, m: Memory, op: Op)
    requires c.Ok() && Good(c, m) && Legal(c, m, op) && c.full > 0
    ensures var after := Apply(c, m, op).0;
            after.calls == m.calls + (if m.live != {} && after.live == {} then 1 else 0)
  {
    OperationKeepsPartition(c, m, op);
    IsFreeExact(c, m);
    IsFreeExact(c, Apply(c, m, op).0);
    if op.Grow? && m.live != {} {
      var o := GrowOn(m.ranges, c.g, c.w, op.range, op.addendum);
      if o.result.Some? { assert o.result.value in Apply(c, m, op).0.live; }
    }
  }

  // ---- laws across operations

  /** Freeing what was just allocated restores the identical list. */
  lemma AllocateThenFree(c: Config, m: Memory, size: nat, align: nat)
    requires c.Ok() && Good(c, m) && c.full > 0 && Legal(c, m, Allocate(size, align))
    requires Apply(c, m, Allocate(size, align)).1.Some?
    ensures var (taken, r) := Apply(c, m, Allocate(size, align));
            FreeOn(taken.ranges, r.value) == m.ranges && taken.live - {r.value} == m.live
  {
    GoodFitsWord(c, m);
    AllocateIsFirstFit(m.ranges, c.full, c.g, c.w, size, align);
    var o := AllocateOn(m.ranges, c.full, c.g, c.w, size, align);
    var r := o.result.value;
    AllocatedIsLive(m.ranges, c.full, c.g, RoundUp(size, c.g), align, o);
    FreshIsDisjoint(m.ranges, m.live, r, c.full, c.g);
    FreeUndoesTake(m.ranges, r, o.ranges);
  }

  lemma FreeUndoesTake(before: seq<Range>, r: Range, after: seq<Range>)
    requires Canonical(before) && r.begin < r.end && CoversAll(before, r.begin, r.end) && Taken(before, r, after)
    ensures FreeOn(after, r) == before
  {
    CoalesceGiven(after, r);
    forall x ensures Covers(FreeOn(after, r), x) <==> Covers(before, x) {}
    CanonicalUnique(FreeOn(after, r), before);
  }

  /** Freeing a grown range is freeing the range as it was before it grew. */
  lemma GrowThenFree(c: Config, m: Memory, range: Range, addendum: nat)
    requires c.Ok() && Good(c, m) && Legal(c, m, Grow(range, addendum))
    requires Apply(c, m, Grow(range, addendum)).1.Some?
    ensures var (grown, r) := Apply(c, m, Grow(range, addendum));
            FreeOn(grown.ranges, r.value) == FreeOn(m.ranges, range)
  {
    if addendum > 0 {
      LiveIsDisjoint(m.ranges, m.live, c.full, c.g, range);
      GrowIsExact(m.ranges, c.full, c.g, c.w, range, addendum);
      var o := GrowOn(m.ranges, c.g, c.w, range, addendum);
      FreeGrown(m.ranges, range, o.result.value.end, o.ranges);
    }
  }

  lemma FreeGrown(before: seq<Range>, range: Range, end: nat, grown: seq<Range>)
    requires Canonical(before) && range.begin < range.end < end && Disjoint(before, range)
    requires CoversAll(before, range.end, end) && Taken(before, Range(range.end, end), grown)
    ensures FreeOn(grown, Range(range.begin, end)) == FreeOn(before, range)
  {
    CoalesceGiven(before, range);
    CoalesceGiven(grown, Range(range.begin, end));
    forall x ensures Covers(FreeOn(grown, Range(range.begin, end)), x) <==> Covers(FreeOn(before, range), x) {}
    CanonicalUnique(FreeOn(grown, Range(range.begin, end)), FreeOn(before, range));
  }

  function FreeEach(rs: seq<Range>, order: seq<Range>): seq<Range>
    decreases |order|
  {
    if order == [] then rs else FreeEach(FreeOn(rs, order[0]), order[1..])
  }

  ghost predicate NoRepeats(order: seq<Range>) {
    forall i, j :: 0 <= i < j < |order| ==> order[i] != order[j]
  }

  lemma {:induction false} FreeEachPartition(rs: seq<Range>, live: set<Range>, full: nat, g: nat, order: seq<Range>)
    requires g > 0 && Partition(rs, live, full, g) && NoRepeats(order)
    requires forall r :: r in order ==> r in live
    ensures Partition(FreeEach(rs, order), live - (set r | r in order), full, g)
    decreases |order|
  {
    hide Partition, FreeOn;
    if order == [] {
      assert live - (set r | r in order) == live;
    } else {
      GivePartition(rs, live, order[0], FreeOn(rs, order[0]), full, g);
      FreeEachPartition(FreeOn(rs, order[0]), live - {order[0]}, full, g, order[1..]);
      assert live - {order[0]} - (set r | r in order[1..]) == live - (set r | r in order) by {
        assert order == [order[0]] + order[1..];
      }
    }
  }

  lemma PartitionDetermines(a: seq<Range>, b: seq<Range>, live: set<Range>, full: nat, g: nat)
    requires g > 0 && Partition(a, live, full, g) && Partition(b, live, full, g)
    ensures a == b
  {
    forall x ensures Covers(a, x) <==> Covers(b, x) {
      if Covers(a, x) { FreePointsInside(a, full, x); }
      if Covers(b, x) { FreePointsInside(b, full, x); }
    }
    CanonicalUnique(a, b);
  }

  /** Freeing any set of live ranges gives the same list in every order. */
  lemma FreesCommute(c: Config, m: Memory, a: seq<Range>, b: seq<Range>)
    requires c.Ok() && Good(c, m) && c.full > 0
    requires NoRepeats(a) && NoRepeats(b) && (forall r :: r in a ==> r in m.live)
    requires forall r :: r in a <==> r in b
    ensures FreeEach(m.ranges, a) == FreeEach(m.ranges, b)
  {
    FreeEachPartition(m.ranges, m.live, c.full, c.g, a);
    FreeEachPartition(m.ranges, m.live, c.full, c.g, b);
    assert (set r | r in a) == (set r | r in b);
    PartitionDetermines(FreeEach(m.ranges, a), FreeEach(m.ranges, b), m.live - (set r | r in a), c.full, c.g);
  }

  /** Free points are conserved: an allocation takes its rounded size, a successful grow exactly its
      rounded addendum, and a free gives back exactly the length of its range. */
  lemma FreeTotalConserved(c: Config, m: Memory, op: Op)
    requires c.Ok() && Good(c, m) && c.full > 0 && Legal(c, m, op)
    ensures var (after, r) := Apply(c, m, op);
            match op
            case Allocate(size, _) =>
              Total(after.ranges) == Total(m.ranges) - (if r.Some? then RoundUp(size, c.g) else 0)
            case Grow(range, addendum) =>
              Total(after.ranges) == Total(m.ranges) - (if r.Some? && addendum > 0 then RoundUp(addendum, c.g) else 0)
            case Free(range) => Total(after.ranges) == Total(m.ranges) + range.Length()
            case AllocateAll => Total(after.ranges) == 0 && Total(m.ranges) == c.full
            case Reset => Total(after.ranges) == c.full
  {
    match op
    case Allocate(size, align) =>
      GoodFitsWord(c, m);
      AllocateIsFirstFit(m.ranges, c.full, c.g, c.w, size, align);
      var o := AllocateOn(m.ranges, c.full, c.g, c.w, size, align);
      if o.result.Some? { TakenTotal(m.ranges, o.result.value, o.ranges); }
    case Grow(range, addendum) =>
      if addendum > 0 {
        LiveIsDisjoint(m.ranges, m.live, c.full, c.g, range);
        GrowIsExact(m.ranges, c.full, c.g, c.w, range, addendum);
        var o := GrowOn(m.ranges, c.g, c.w, range, addendum);
        if o.result.Some? { TakenTotal(m.ranges, Range(range.end, o.result.value.end), o.ranges); }
      }
    case Free(range) =>
      LiveIsDisjoint(m.ranges, m.live, c.full, c.g, range);
      CoalesceGiven(m.ranges, range);
      GivenTotal(m.ranges, range, FreeOn(m.ranges, range));
    case _ =>
      assert Total([Range(0, c.full)]) == c.full;
  }
}
