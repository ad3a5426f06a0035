/** What the allocator answers, in terms of the live ranges alone. */
module AllocatorAnswers {
  import opened Wrappers
  import opened Bits
  import opened Alignment
  import opened FreeRanges
  import opened RangeOperations
  import opened AllocatorLaws

  /** The interval lies in the memory, and no live range has a point of it. */
  ghost predicate Vacant(c: Config, live: set<Range>, begin: nat, end: nat) {
    end <= c.full && forall r, x :: r in live && r.Has(x) ==> !(begin <= x < end)
  }

  ghost predicate Room(c: Config, live: set<Range>, size: nat, align: nat, p: nat)
    requires align > 0
  {
    p % align == 0 && Vacant(c, live, p, p + size)
  }

  /** The lowest aligned place with room is handed out, if there is one. */
  ghost predicate Places(c: Config, live: set<Range>, size: nat, align: nat, after: set<Range>, r: Option<Range>)
    requires align > 0
  {
    match r
    case None => after == live && forall q: nat :: !Room(c, live, size, align, q)
    case Some(p) =>
      && p.end == p.begin + size && Room(c, live, size, align, p.begin)
      && (forall q: nat :: Room(c, live, size, align, q) ==> p.begin <= q)
      && p !in live && after == live + {p}
  }

  /** An allocator that keeps the live ranges and nothing else would give `r` and be left with `after`. */
  ghost predicate Answers(c: Config, live: set<Range>, op: Op, after: set<Range>, r: Option<Range>)
    requires c.Ok()
  {
    match op
    case Allocate(size, align) => size > 0 && align > 0 ==> Places(c, live, RoundUp(size, c.g), Max(align, c.g), after, r)
    case AllocateAll => r == Some(Range(0, c.full)) && after == (if c.full > 0 then {Range(0, c.full)} else {})
    case Grow(range, addendum) =>
      var grown := Range(range.begin, range.end + RoundUp(addendum, c.g));
      if addendum == 0 then r == Some(range) && after == live
      else if Vacant(c, live, range.end, grown.end) then r == Some(grown) && after == live - {range} + {grown}
      else r == None && after == live
    case Free(range) => r == None && after == live - {range}
    case Reset => r == None && after == {}
  }

  lemma VacantIsFree(c: Config, m: Memory, begin: nat, end: nat)
    requires c.Ok() && c.full > 0 && Good(c, m) && begin < end
    ensures Vacant(c, m.live, begin, end) <==> CoversAll(m.ranges, begin, end)
  {
    if Vacant(c, m.live, begin, end) {
      forall x | begin <= x < end ensures Covers(m.ranges, x) { assert !LiveAt(m.live, x); }
    }
    if CoversAll(m.ranges, begin, end) {
      assert Covers(m.ranges, end - 1);
      FreePointsInside(m.ranges, c.full, end - 1);
      forall r, x | r in m.live && r.Has(x) ensures !(begin <= x < end) { assert LiveAt(m.live, x); }
    }
  }

  lemma AllocateAnswers(c: Config, m: Memory, size: nat, align: nat)
    requires c.Ok() && c.full > 0 && Good(c, m) && Legal(c, m, Allocate(size, align))
    ensures var (after, r) := Apply(c, m, Allocate(size, align));
            Places(c, m.live, RoundUp(size, c.g), Max(align, c.g), after.live, r)
  {
    hide Covers, Canonical, Taken, Partition, RoundUp, Vacant, CoversAll;
    GoodFitsWord(c, m);
    GoodIsWithin(c, m);
    AllocateIsFirstFit(m.ranges, c.full, c.g, c.w, size, align);
    RoundUpGrows(size, c.g);
    var o, rounded, a := AllocateOn(m.ranges, c.full, c.g, c.w, size, align), RoundUp(size, c.g), Max(align, c.g);
    hide AllocateOn;
    forall q: nat ensures Room(c, m.live, rounded, a, q) <==> Fits(m.ranges, rounded, a, q) { VacantIsFree(c, m, q, q + rounded); }
    if o.result.Some? { FreshRange(c, m, o.result.value); }
  }

  lemma GoodIsWithin(c: Config, m: Memory)
    requires c.Ok() && c.full > 0 && Good(c, m)
    ensures Within(m.ranges, c.full)
  {}

  lemma FreshRange(c: Config, m: Memory, r: Range)
    requires c.Ok() && c.full > 0 && Good(c, m) && r.begin < r.end && CoversAll(m.ranges, r.begin, r.end)
    ensures r !in m.live
  {
    assert r.Has(r.begin);
    VacantIsFree(c, m, r.begin, r.end);
  }

  lemma GrowAnswers(c: Config, m: Memory, range: Range, addendum: nat)
    requires c.Ok() && c.full > 0 && Good(c, m) && Legal(c, m, Grow(range, addendum))
    ensures var (after, r) := Apply(c, m, Grow(range, addendum)); Answers(c, m.live, Grow(range, addendum), after.live, r)
  {
    hide Covers, Canonical, Taken, Partition, RoundUp, Vacant, CoversAll;
    if addendum == 0 {
      assert m.live - {range} + {range} == m.live;
    } else {
      LiveNotEmpty(c, m, range);
      LiveIsDisjoint(m.ranges, m.live, c.full, c.g, range);
      GrowIsExact(m.ranges, c.full, c.g, c.w, range, addendum);
      RoundUpGrows(addendum, c.g);
      VacantIsFree(c, m, range.end, range.end + RoundUp(addendum, c.g));
    }
  }

  /** With no memory there is nothing to hand out. */
  lemma NoMemory(c: Config, m: Memory, op: Op)
    requires c.Ok() && c.full == 0 && Good(c, m) && Legal(c, m, op)
    ensures var (after, r) := Apply(c, m, op); Answers(c, m.live, op, after.live, r)
  {
    if op.Allocate? {
      GoodFitsWord(c, m);
      AlignUpRounds(op.size, c.g, c.w);
      RoundUpGrows(op.size, c.g);
    }
  }

  /** Every legal operation answers as the live ranges alone call for. */
  lemma OperationAnswers(c: Config, m: Memory, op: Op)
    requires c.Ok() && Good(c, m) && Legal(c, m, op)
    ensures var (after, r) := Apply(c, m, op); Answers(c, m.live, op, after.live, r)
  {
    if c.full == 0 {
      NoMemory(c, m, op);
    } else {
      match op
      case Allocate(size, align) => AllocateAnswers(c, m, size, align);
      case Grow(range, addendum) => GrowAnswers(c, m, range, addendum);
      case Reset => IsFreeExact(c, m);
      case _ =>
    }
  }

  /** The answers leave no choice. */
  lemma AnswersAreUnique(c: Config, live: set<Range>, op: Op, a: set<Range>, r: Option<Range>, b: set<Range>, s: Option<Range>)
    requires c.Ok() && Answers(c, live, op, a, r) && Answers(c, live, op, b, s)
    requires op.Allocate? ==> op.size > 0 && op.align > 0
    ensures a == b && r == s
  {
    hide Vacant, RoundUp;
    if op.Allocate? {
      var size, align := RoundUp(op.size, c.g), Max(op.align, c.g);
      if r.Some? { assert Room(c, live, size, align, r.value.begin); }
      if s.Some? { assert Room(c, live, size, align, s.value.begin); }
    }
  }

  /** Over any run, whatever is handed out is live, and was not before. */
  lemma ReturnedIsLive(c: Config, ms: seq<Memory>, ops: seq<Op>, i: nat)
    requires c.Ok() && c.full > 0 && IsRun(c, ms, ops) && i < |ops|
    ensures Good(c, ms[i])
    ensures Answers(c, ms[i].live, ops[i], ms[i + 1].live, Apply(c, ms[i], ops[i]).1)
    ensures var r := Apply(c, ms[i], ops[i]).1;
            r.Some? ==> r.value in ms[i + 1].live && (ops[i].Grow? || r.value !in ms[i].live)
  {
    RunKeepsPartition(c, ms, ops, i);
    OperationAnswers(c, ms[i], ops[i]);
    if ops[i].AllocateAll? { IsFreeExact(c, ms[i]); }
  }

  /** The whole memory taken at once is all of it, and freeing it restores the list. */
  lemma AllocateAllThenFree(c: Config, m: Memory)
    requires c.Ok() && c.full > 0 && Good(c, m) && Legal(c, m, AllocateAll)
    ensures var (taken, r) := Apply(c, m, AllocateAll);
            && r.Some? && taken.live == {r.value} && taken.ranges == [] && (forall x :: 0 <= x < c.full <==> r.value.Has(x))
            && FreeOn(taken.ranges, r.value) == m.ranges
  {}
}
