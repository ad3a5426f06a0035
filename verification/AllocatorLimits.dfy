/** What the allocator does when a sum leaves the word: which calls keep the memory partitioned. */
module AllocatorLimits {
  import opened Wrappers
  import opened Bits
  import opened Alignment
  import opened FreeRanges
  import opened RangeOperations
  import opened AllocatorLaws

  /** Arguments up to the bound that the constructor puts on the full size need no further check. */
  lemma HalfIsLegal(c: Config, m: Memory, op: Op)
    requires c.Ok() && Good(c, m) && Callable(c, m, op)
    requires op.Allocate? ==> IsPow2(op.align) && op.size <= (Pow2(c.w) - 1) / 2
    requires op.Grow? ==> op.addendum <= (Pow2(c.w) - 1) / 2
    ensures Legal(c, m, op)
  {
    match op
    case Allocate(size, _) => GrowNoWrap(0, size, c.full, c.g, c.w);
    case Grow(range, addendum) => GrowNoWrap(range.end, addendum, c.full, c.g, c.w);
    case _ =>
  }

  // ---- allocate

  /** Where the interval tried at a range start ends. */
  function TriedEnd(begin: nat, rounded: nat, a: nat, w: nat): nat
    requires 0 < a < Pow2(w) && begin < Pow2(w)
  {
    (AlignUp(begin, a, w) + rounded) % Pow2(w)
  }

  /** The search of `allocate` settles on range `i`: the first whose test passes. */
  ghost predicate Settles(rs: seq<Range>, rounded: nat, a: nat, w: nat, i: nat)
    requires 0 < a < Pow2(w) && forall r :: r in rs ==> r.begin < Pow2(w)
  {
    && i < |rs| && TriedEnd(rs[i].begin, rounded, a, w) <= rs[i].end
    && forall j :: 0 <= j < i ==> TriedEnd(rs[j].begin, rounded, a, w) > rs[j].end
  }

  ghost predicate Serves(rs: seq<Range>, rounded: nat, a: nat, w: nat, k: nat, o: Outcome)
    requires 0 < a < Pow2(w) && forall r :: r in rs ==> r.begin < Pow2(w)
  {
    k < |rs| &&
    var b, e := AlignUp(rs[k].begin, a, w), TriedEnd(rs[k].begin, rounded, a, w);
    o == Outcome(Some(Range(b, e)), Carve(rs, k, b, e))
  }

  lemma {:induction false} FitFromSettles(rs: seq<Range>, rounded: nat, a: nat, w: nat, i: nat) returns (k: nat)
    requires 0 < a < Pow2(w) && i <= |rs| && forall r :: r in rs ==> r.begin < Pow2(w)
    requires forall j :: 0 <= j < i ==> TriedEnd(rs[j].begin, rounded, a, w) > rs[j].end
    ensures var o := FitFrom(rs, rounded, a, w, i);
            if o.result.None? then o.ranges == rs && forall j: nat :: !Settles(rs, rounded, a, w, j)
            else Settles(rs, rounded, a, w, k) && Serves(rs, rounded, a, w, k, o)
    decreases |rs| - i
  {
    hide AlignUp, Carve, Pow2;
    k := i;
    if i < |rs| && TriedEnd(rs[i].begin, rounded, a, w) > rs[i].end {
      k := FitFromSettles(rs, rounded, a, w, i + 1);
    }
  }

  /** None of the three sums made for a range start leaves the word. */
  ghost predicate SumsFit(begin: nat, size: nat, g: nat, a: nat, w: nat)
    requires 0 < g < Pow2(w) && size < Pow2(w) && 0 < a < Pow2(w) && begin < Pow2(w)
  {
    size + g - 1 < Pow2(w) && begin + a - 1 < Pow2(w) && AlignUp(begin, a, w) + AlignUp(size, g, w) < Pow2(w)
  }

  /** The sums fit for the range that the request is served from, if any. */
  ghost predicate AllocateFits(rs: seq<Range>, full: nat, g: nat, w: nat, size: nat, align: nat)
    requires 0 < g < Pow2(w) && size < Pow2(w) && 0 < align < Pow2(w)
    requires forall r :: r in rs ==> r.begin < Pow2(w)
  {
    AlignUp(size, g, w) <= full ==>
      forall i: nat :: Settles(rs, AlignUp(size, g, w), Max(align, g), w, i) ==> SumsFit(rs[i].begin, size, g, Max(align, g), w)
  }

  lemma SettlesOnce(rs: seq<Range>, rounded: nat, a: nat, w: nat, i: nat, j: nat)
    requires 0 < a < Pow2(w) && forall r :: r in rs ==> r.begin < Pow2(w)
    requires Settles(rs, rounded, a, w, i) && Settles(rs, rounded, a, w, j)
    ensures i == j
  {
    hide TriedEnd;
  }

  /** Whether a request was served from new memory and left the partition in place, or not at all. */
  ghost predicate Kept(c: Config, m: Memory, op: Op)
    requires c.Ok() && Good(c, m) && Callable(c, m, op)
  {
    var (after, r) := Apply(c, m, op);
    Good(c, after) && (op.Allocate? && r.Some? ==> r.value !in m.live)
  }

  lemma FittingIsKept(c: Config, m: Memory, size: nat, align: nat, k: nat)
    requires c.Ok() && Good(c, m) && Callable(c, m, Allocate(size, align))
    requires (forall r :: r in m.ranges ==> r.begin < Pow2(c.w)) && AlignUp(size, c.g, c.w) <= c.full
    requires k < |m.ranges| && SumsFit(m.ranges[k].begin, size, c.g, Max(align, c.g), c.w)
    requires TriedEnd(m.ranges[k].begin, AlignUp(size, c.g, c.w), Max(align, c.g), c.w) <= m.ranges[k].end
    ensures var b := AlignUp(m.ranges[k].begin, Max(align, c.g), c.w);
            var e := b + AlignUp(size, c.g, c.w);
            && TriedEnd(m.ranges[k].begin, AlignUp(size, c.g, c.w), Max(align, c.g), c.w) == e
            && Range(b, e) !in m.live
            && Good(c, Memory(Carve(m.ranges, k, b, e), m.live + {Range(b, e)}, m.calls))
  {
    var begin, a := m.ranges[k].begin, Max(align, c.g);
    var b, rounded := AlignUp(begin, a, c.w), AlignUp(size, c.g, c.w);
    ModIs(b + rounded, Pow2(c.w), 0, b + rounded);
    AlignUpRounds(size, c.g, c.w);
    AlignUpIsUp(begin, a, c.w);
    if c.full > 0 {
      AlignUpKeepsMultiple(begin, a, c.g, c.w);
      PieceIsLive(m, c, k, b, b + rounded);
    }
  }

  /** A granular piece of a free range may be handed out. */
  lemma PieceIsLive(m: Memory, c: Config, k: nat, b: nat, e: nat)
    requires c.Ok() && c.full > 0 && Good(c, m) && k < |m.ranges| && m.ranges[k].begin <= b < e <= m.ranges[k].end
    requires b % c.g == 0 && (e - b) % c.g == 0
    ensures Range(b, e) !in m.live && Good(c, Memory(Carve(m.ranges, k, b, e), m.live + {Range(b, e)}, m.calls))
  {
    CarveTaken(m.ranges, k, b, e);
    SumOfMultiples(b, e - b, c.g);
    forall x | b <= x < e ensures Covers(m.ranges, x) { assert m.ranges[k].Has(x); }
    TakePartition(m.ranges, m.live, Range(b, e), Carve(m.ranges, k, b, e), c.full, c.g);
  }

  lemma TriedEndIs(begin: nat, rounded: nat, a: nat, w: nat)
    requires 0 < a < Pow2(w) && begin < Pow2(w) && rounded < Pow2(w)
    ensures var e := AlignUp(begin, a, w) + rounded;
            TriedEnd(begin, rounded, a, w) == if e < Pow2(w) then e else e - Pow2(w)
  {
    hide AlignUp;
    ModWrap(AlignUp(begin, a, w) + rounded, Pow2(w));
  }

  lemma MisfitIsNotKept(c: Config, m: Memory, size: nat, align: nat, k: nat)
    requires c.Ok() && Good(c, m) && Callable(c, m, Allocate(size, align))
    requires (forall r :: r in m.ranges ==> r.begin < Pow2(c.w)) && AlignUp(size, c.g, c.w) <= c.full
    requires k < |m.ranges| && !SumsFit(m.ranges[k].begin, size, c.g, Max(align, c.g), c.w)
    requires TriedEnd(m.ranges[k].begin, AlignUp(size, c.g, c.w), Max(align, c.g), c.w) <= m.ranges[k].end
    ensures var b := AlignUp(m.ranges[k].begin, Max(align, c.g), c.w);
            var e := TriedEnd(m.ranges[k].begin, AlignUp(size, c.g, c.w), Max(align, c.g), c.w);
            Range(b, e) in m.live || !Good(c, Memory(Carve(m.ranges, k, b, e), m.live + {Range(b, e)}, m.calls))
  {
    hide AlignUp, Good, Carve, Pow2, TriedEnd;
    var begin, a := m.ranges[k].begin, Max(align, c.g);
    var b, rounded := AlignUp(begin, a, c.w), AlignUp(size, c.g, c.w);
    TriedEndIs(begin, rounded, a, c.w);
    if size + c.g - 1 >= Pow2(c.w) {
      AlignUpWraps(size, c.g, c.w);
      NotLive(c, m.live, Carve(m.ranges, k, b, b), b, b, m.calls);
    } else if b + rounded >= Pow2(c.w) {
      NotLive(c, m.live, Carve(m.ranges, k, b, b + rounded - Pow2(c.w)), b, b + rounded - Pow2(c.w), m.calls);
    } else {
      AlignUpIsDown(begin, a, c.w);
      AlignUpIsUp(size, c.g, c.w);
      if Range(b, b + rounded) !in m.live { BelowIsTaken(c, m, k, b, b + rounded); }
    }
  }

  lemma NotLive(c: Config, live: set<Range>, rs: seq<Range>, b: nat, e: nat, calls: nat)
    requires c.Ok() && e <= b
    ensures !Good(c, Memory(rs, live + {Range(b, e)}, calls))
  {
    assert Range(b, e) in live + {Range(b, e)};
  }

  /** A position below the free range it is tried for is free in an earlier range or live already. */
  lemma BelowIsTaken(c: Config, m: Memory, k: nat, b: nat, e: nat)
    requires c.Ok() && Good(c, m) && k < |m.ranges| && b < m.ranges[k].begin && b < e && Range(b, e) !in m.live
    ensures !Good(c, Memory(Carve(m.ranges, k, b, e), m.live + {Range(b, e)}, m.calls))
  {
    var after, r := Carve(m.ranges, k, b, e), Range(b, e);
    var live := m.live + {r};
    assert r in live && r.Has(b);
    if LiveAt(m.live, b) {
      var s :| s in m.live && s.Has(b);
      assert s in live && s != r;
    } else {
      assert Covers(m.ranges, b);
      var j :| 0 <= j < |m.ranges| && m.ranges[j].Has(b);
      assert after[j].Has(b);
      assert Covers(after, b) && LiveAt(live, b);
    }
  }

  /** `allocate` serves new memory and keeps the partition exactly when it serves nothing or the sums
      for the range it settles on stay inside the word; that the alignment is a power of two does not
      matter for it. */
  lemma AllocateKeptExactly(c: Config, m: Memory, size: nat, align: nat)
    requires c.Ok() && Good(c, m) && Callable(c, m, Allocate(size, align))
    ensures forall r :: r in m.ranges ==> r.begin < Pow2(c.w)
    ensures Kept(c, m, Allocate(size, align)) <==> AllocateFits(m.ranges, c.full, c.g, c.w, size, align)
  {
    hide AlignUp, SumsFit, Carve, Good, TriedEnd;
    GoodFitsWord(c, m);
    var rounded, a := AlignUp(size, c.g, c.w), Max(align, c.g);
    if rounded <= c.full {
      var k := FitFromSettles(m.ranges, rounded, a, c.w, 0);
      var o := AllocateOn(m.ranges, c.full, c.g, c.w, size, align);
      if o.result.Some? {
        forall i: nat | Settles(m.ranges, rounded, a, c.w, i) ensures i == k { SettlesOnce(m.ranges, rounded, a, c.w, i, k); }
        if SumsFit(m.ranges[k].begin, size, c.g, a, c.w) {
          FittingIsKept(c, m, size, align, k);
        } else {
          MisfitIsNotKept(c, m, size, align, k);
        }
      } else {
        SameIsGood(c, m, o.ranges);
      }
    } else {
      SameIsGood(c, m, m.ranges);
    }
  }

  lemma SameIsGood(c: Config, m: Memory, rs: seq<Range>)
    requires c.Ok() && Good(c, m) && rs == m.ranges
    ensures Good(c, Memory(rs, m.live, m.calls))
  {}

  /** A size within `G - 1` of the maximum becomes 0, and a free memory then serves an empty range. */
  lemma EmptyRangeServed(c: Config, size: nat)
    requires c.Ok() && c.full > 0 && Pow2(c.w) - c.g < size < Pow2(c.w)
    ensures AllocateOn([Range(0, c.full)], c.full, c.g, c.w, size, 1)
         == Outcome(Some(Range(0, 0)), [Range(0, c.full)])
  {
    hide AlignUp, RoundUp;
    AlignUpWraps(size, c.g, c.w);
    AlignUpRounds(0, c.g, c.w);
    RoundUpLeast(0, c.g, 0);
    ModIs(0, Pow2(c.w), 0, 0);
    assert Carve([Range(0, c.full)], 0, 0, 0) == [Range(0, c.full)];
  }

  // ---- grow

  /** `grow` keeps the partition exactly when it adds nothing, finds no free neighbour, or aims for an
      end past the begin, be it by a wrap: a wrapped sum then only gives up the tail of the range. */
  lemma GrowKeptExactly(c: Config, m: Memory, range: Range, addendum: nat)
    requires c.Ok() && Good(c, m) && Callable(c, m, Grow(range, addendum))
    ensures Kept(c, m, Grow(range, addendum))
       <==> addendum == 0 || !Covers(m.ranges, range.end)
            || range.begin < (range.end + RoundUp(addendum, c.g)) % Pow2(c.w)
  {
    hide Kept, RoundUp, Covers, Partition;
    LiveInside(c, m, range);
    if addendum == 0 || range.end + RoundUp(addendum, c.g) < Pow2(c.w) {
      LegalGrow(c, m, range, addendum, range.end + RoundUp(addendum, c.g));
    } else {
      WrappedGrow(c, m, range, addendum, (range.end + RoundUp(addendum, c.g)) % Pow2(c.w));
    }
  }

  lemma LegalGrow(c: Config, m: Memory, range: Range, addendum: nat, end: nat)
    requires c.Ok() && Good(c, m) && Callable(c, m, Grow(range, addendum)) && range.begin < range.end < Pow2(c.w)
    requires end == range.end + RoundUp(addendum, c.g) && (addendum == 0 || end < Pow2(c.w))
    ensures Kept(c, m, Grow(range, addendum)) && (addendum > 0 ==> range.begin < end % Pow2(c.w))
  {
    hide Apply, Good, Partition;
    if addendum == 0 {
      NothingAdded(c, m, range);
    } else {
      GrowKeeps(c, m, range, addendum);
      RoundUpGrows(addendum, c.g);
      ModIs(end, Pow2(c.w), 0, end);
    }
  }

  lemma NothingAdded(c: Config, m: Memory, range: Range)
    requires c.Ok() && Good(c, m) && Callable(c, m, Grow(range, 0))
    ensures Kept(c, m, Grow(range, 0))
  {
    assert m.live - {range} + {range} == m.live;
  }

  lemma LiveInside(c: Config, m: Memory, range: Range)
    requires c.Ok() && Good(c, m) && range in m.live
    ensures c.full > 0 && range.begin < range.end <= c.full && c.full < Pow2(c.w)
  {}

  lemma WrappedEnd(c: Config, end: nat, addendum: nat, desired: nat)
    requires c.Ok() && end < Pow2(c.w) && 0 < addendum < Pow2(c.w) && end + RoundUp(addendum, c.g) >= Pow2(c.w)
    requires desired == (end + RoundUp(addendum, c.g)) % Pow2(c.w)
    ensures desired == end + RoundUp(addendum, c.g) - Pow2(c.w) <= end
    ensures desired == (end + AlignUp(addendum, c.g, c.w)) % Pow2(c.w)
  {
    hide RoundUp, AlignUp;
    AlignUpIs(addendum, c.g, c.w);
    ModWrap(end + RoundUp(addendum, c.g), Pow2(c.w));
    ModWrap(end + AlignUp(addendum, c.g, c.w), Pow2(c.w));
  }

  lemma WrappedGrow(c: Config, m: Memory, range: Range, addendum: nat, end: nat)
    requires c.Ok() && Good(c, m) && Callable(c, m, Grow(range, addendum)) && addendum > 0
    requires range.end < Pow2(c.w)
    requires range.end + RoundUp(addendum, c.g) >= Pow2(c.w) && end == (range.end + RoundUp(addendum, c.g)) % Pow2(c.w)
    ensures Kept(c, m, Grow(range, addendum)) <==> !Covers(m.ranges, range.end) || range.begin < end
  {
    hide RoundUp, AlignUp, Partition, Covers, Canonical;
    WrappedEnd(c, range.end, addendum, end);
    WrappedGrowTo(c, m, range, end);
    if Covers(m.ranges, range.end) {
      if range.begin < end {
        MultipleEnd(c, m, range, addendum, end);
        TailGivenUp(c, m, range, end, UpperIndex(m.ranges, range));
      } else {
        NotLive(c, m.live - {range}, GrowTo(m.ranges, range, end).ranges, range.begin, end, m.calls);
      }
    }
  }

  lemma WrappedGrowTo(c: Config, m: Memory, range: Range, end: nat)
    requires c.Ok() && Good(c, m) && range in m.live && end <= range.end
    ensures var o, k := GrowTo(m.ranges, range, end), UpperIndex(m.ranges, range);
            if Covers(m.ranges, range.end) then
              k < |m.ranges| && m.ranges[k].begin == range.end
              && o == Outcome(Some(Range(range.begin, end)), m.ranges[k := Range(end, m.ranges[k].end)])
            else o == Outcome(None, m.ranges)
  {
    LiveIsDisjoint(m.ranges, m.live, c.full, c.g, range);
    GrowNeighbour(m.ranges, range);
  }

  lemma DifferenceOfMultiples(p: nat, q: nat, g: nat)
    requires g > 0 && p % g == 0 && q % g == 0 && q <= p
    ensures (p - q) % g == 0
  {
    assert p == g * (p / g) && q == g * (q / g);
    assert p - q == g * (p / g - q / g);
    if p / g < q / g { MulStep(g, p / g, q / g); }
    ModIs(p - q, g, p / g - q / g, 0);
  }

  lemma MultipleEnd(c: Config, m: Memory, range: Range, addendum: nat, end: nat)
    requires c.Ok() && Good(c, m) && range in m.live && Covers(m.ranges, range.end)
    requires end == range.end + RoundUp(addendum, c.g) - Pow2(c.w)
    ensures end % c.g == 0
  {
    hide RoundUp;
    var k: nat :| c.g == Pow2(k);
    Pow2Order(k, c.w);
    Pow2Divides(k, c.w);
    EndIsMultiple(c, m, range);
    SumOfMultiples(range.end, RoundUp(addendum, c.g), c.g);
    DifferenceOfMultiples(range.end + RoundUp(addendum, c.g), Pow2(c.w), c.g);
  }

  lemma EndIsMultiple(c: Config, m: Memory, range: Range)
    requires c.Ok() && Good(c, m) && range in m.live && Covers(m.ranges, range.end)
    ensures range.end % c.g == 0
  {
    LiveIsDisjoint(m.ranges, m.live, c.full, c.g, range);
    GrowNeighbour(m.ranges, range);
  }

  /** A live range may be seen as two. */
  lemma SplitPartition(rs: seq<Range>, live: set<Range>, r: Range, mid: nat, full: nat, g: nat)
    requires g > 0 && Partition(rs, live, full, g) && r in live && r.begin < mid < r.end && mid % g == 0
    ensures Range(mid, r.end) !in live
    ensures Partition(rs, live - {r} + {Range(r.begin, mid), Range(mid, r.end)}, full, g)
  {
    var a, b := Range(r.begin, mid), Range(mid, r.end);
    var split := live - {r} + {a, b};
    assert r.Has(mid) && b.Has(mid) && b != r;
    assert forall x :: r.Has(x) <==> a.Has(x) || b.Has(x);
    forall x | 0 <= x < full ensures LiveAt(split, x) <==> LiveAt(live, x) {
      if LiveAt(live, x) {
        var s :| s in live && s.Has(x);
        if s == r { assert a in split && b in split; } else { assert s in split; }
      }
    }
  }

  lemma TailGivenUp(c: Config, m: Memory, range: Range, end: nat, k: nat)
    requires c.Ok() && Good(c, m) && range in m.live && range.begin < end <= range.end && end % c.g == 0
    requires k < |m.ranges| && m.ranges[k].begin == range.end
    ensures Good(c, Memory(m.ranges[k := Range(end, m.ranges[k].end)], m.live - {range} + {Range(range.begin, end)}, m.calls))
  {
    hide Partition, FreeOn;
    LiveInside(c, m, range);
    if end == range.end {
      assert m.live - {range} + {range} == m.live;
      assert m.ranges[k := m.ranges[k]] == m.ranges;
    } else {
      var tail := Range(end, range.end);
      SplitPartition(m.ranges, m.live, range, end, c.full, c.g);
      SplitWithout(m.live, range, Range(range.begin, end), tail);
      GivePartition(m.ranges, m.live - {range} + {Range(range.begin, end), tail}, tail, FreeOn(m.ranges, tail), c.full, c.g);
      TailMerges(m.ranges, m.live, c, range, end, k);
    }
  }

  lemma SplitWithout(live: set<Range>, r: Range, head: Range, tail: Range)
    requires head != tail && tail !in live
    ensures live - {r} + {head, tail} - {tail} == live - {r} + {head}
  {}

  /** The tail of a live range, freed, merges with its free neighbour only. */
  lemma TailMerges(rs: seq<Range>, live: set<Range>, c: Config, range: Range, end: nat, k: nat)
    requires c.Ok() && Partition(rs, live, c.full, c.g) && range in live && range.begin < end < range.end
    requires k < |rs| && rs[k].begin == range.end
    ensures FreeOn(rs, Range(end, range.end)) == rs[k := Range(end, rs[k].end)]
  {
    var tail := Range(end, range.end);
    LiveIsDisjoint(rs, live, c.full, c.g, range);
    UpperIndexSplits(rs, tail);
    assert UpperIndex(rs, tail) == k;
    if k > 0 && rs[k - 1].end == end {
      assert rs[k - 1].Has(end - 1) && range.Has(end - 1);
      assert Covers(rs, end - 1);
    }
  }

  /** An addendum that wraps to just before the range frees a live range and reports success: here the
      caller gets an empty range back while all of the memory becomes free. */
  lemma LiveRangeLost(c: Config)
    requires c.Ok() && c.g < c.full
    ensures GrowOn([Range(c.g, c.full)], c.g, c.w, Range(0, c.g), Pow2(c.w) - c.g)
         == Outcome(Some(Range(0, 0)), [Range(0, c.full)])
  {
    hide AlignUp, RoundUp;
    var k: nat :| c.g == Pow2(k);
    Pow2Order(k, c.w);
    Pow2Divides(k, c.w);
    ModIs(c.g, c.g, 1, 0);
    DifferenceOfMultiples(Pow2(c.w), c.g, c.g);
    RoundUpLeast(Pow2(c.w) - c.g, c.g, Pow2(c.w) - c.g);
    AlignUpRounds(Pow2(c.w) - c.g, c.g, c.w);
    ModIs(Pow2(c.w), Pow2(c.w), 1, 0);
    UpperIndexIs([Range(c.g, c.full)], Range(0, c.g), 0);
  }
}
