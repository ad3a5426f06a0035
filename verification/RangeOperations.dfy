/** The free-range-list allocator: `linear_allocator<B, S, G>` for an unsigned `S` of `W` bits. */
module RangeOperations {
  import opened Wrappers
  import opened Bits
  import opened Alignment
  import opened FreeRanges

  function Max(a: nat, b: nat): nat {
    if a < b then b else a
  }

  // ---- what each operation does to the list of free ranges, for every argument

  datatype Outcome = Outcome(result: Option<Range>, ranges: seq<Range>)

  /** The search loop of `allocate` from index `i` on, for an already rounded size. */
  function FitFrom(rs: seq<Range>, size: nat, align: nat, w: nat, i: nat): Outcome
    requires 0 < align < Pow2(w) && i <= |rs|
    requires forall r :: r in rs ==> r.begin < Pow2(w)
    decreases |rs| - i
  {
    if i == |rs| then Outcome(None, rs) else
    var b := AlignUp(rs[i].begin, align, w);
    var e := (b + size) % Pow2(w);
    if e > rs[i].end then FitFrom(rs, size, align, w, i + 1)
    else Outcome(Some(Range(b, e)), Carve(rs, i, b, e))
  }

  function AllocateOn(rs: seq<Range>, full: nat, g: nat, w: nat, size: nat, align: nat): Outcome
    requires 0 < g < Pow2(w) && size < Pow2(w) && 0 < align < Pow2(w)
    requires forall r :: r in rs ==> r.begin < Pow2(w)
  {
    var rounded := AlignUp(size, g, w);
    if rounded > full then Outcome(None, rs) else FitFrom(rs, rounded, Max(align, g), w, 0)
  }

  function GrowOn(rs: seq<Range>, g: nat, w: nat, range: Range, addendum: nat): Outcome
    requires 0 < g < Pow2(w) && addendum < Pow2(w)
  {
    if addendum == 0 then Outcome(Some(range), rs)
    else GrowTo(rs, range, (range.end + AlignUp(addendum, g, w)) % Pow2(w))
  }

  function GrowTo(rs: seq<Range>, range: Range, desired: nat): Outcome {
    var k := UpperIndex(rs, range);
    if k == |rs| || rs[k].begin != range.end || rs[k].end < desired then Outcome(None, rs)
    else if rs[k].end == desired then Outcome(Some(Range(range.begin, desired)), rs[..k] + rs[k + 1..])
    else Outcome(Some(Range(range.begin, desired)), rs[k := Range(desired, rs[k].end)])
  }

  function FreeOn(rs: seq<Range>, range: Range): seq<Range> {
    Coalesce(rs, UpperIndex(rs, range), range)
  }

  // ---- first fit

  /** `p` is an aligned position with `size` free points from there on. */
  ghost predicate Fits(rs: seq<Range>, size: nat, align: nat, p: nat)
    requires align > 0
  {
    p % align == 0 && CoversAll(rs, p, p + size)
  }

  ghost predicate LowestFit(rs: seq<Range>, size: nat, align: nat, p: nat)
    requires align > 0
  {
    Fits(rs, size, align, p) && forall q: nat :: Fits(rs, size, align, q) ==> p <= q
  }

  /** Canonical, and inside `[0, full)`. */
  ghost predicate Within(rs: seq<Range>, full: nat) {
    Canonical(rs) && forall i :: 0 <= i < |rs| ==> rs[i].end <= full
  }

  /** First fit in the sense of the point set: the position returned is the lowest aligned one with
      enough free points, and there is none when nothing is returned. */
  ghost predicate FirstFit(rs: seq<Range>, size: nat, align: nat, o: Outcome)
    requires align > 0
  {
    match o.result
    case None => o.ranges == rs && forall q: nat :: !Fits(rs, size, align, q)
    case Some(r) => r.end == r.begin + size && LowestFit(rs, size, align, r.begin) && Taken(rs, r, o.ranges)
  }

  lemma NoFitInRange(rs: seq<Range>, i: nat, size: nat, align: nat, q: nat)
    requires align > 0 && i < |rs| && RoundUp(rs[i].begin, align) + size > rs[i].end
    requires q % align == 0
    ensures !(rs[i].begin <= q && q + size <= rs[i].end)
  {
    if rs[i].begin <= q { RoundUpLeast(rs[i].begin, align, q); }
  }

  lemma FitFromFound(rs: seq<Range>, full: nat, size: nat, align: nat, w: nat, i: nat)
    requires w > 0 && IsPow2(align) && align < Pow2(w) && i < |rs|
    requires full <= (Pow2(w) - 1) / 2 && 0 < size <= full && Within(rs, full)
    requires forall j :: 0 <= j < i ==> RoundUp(rs[j].begin, align) + size > rs[j].end
    requires RoundUp(rs[i].begin, align) + size <= rs[i].end
    ensures var b := RoundUp(rs[i].begin, align);
            FirstFit(rs, size, align, Outcome(Some(Range(b, b + size)), Carve(rs, i, b, b + size)))
  {
    var b := RoundUp(rs[i].begin, align);
    CarveTaken(rs, i, b, b + size);
    forall x | b <= x < b + size ensures Covers(rs, x) { assert rs[i].Has(x); }
    forall q: nat | Fits(rs, size, align, q) ensures b <= q {
      var j := IntervalInOne(rs, q, q + size);
      NoFitInEarlier(rs, i, j, size, align, q);
      if i == j { RoundUpLeast(rs[i].begin, align, q); }
    }
  }

  lemma NoFitInEarlier(rs: seq<Range>, i: nat, j: nat, size: nat, align: nat, q: nat)
    requires align > 0 && i <= |rs| && j < |rs| && q % align == 0
    requires rs[j].begin <= q && q + size <= rs[j].end
    requires forall j :: 0 <= j < i ==> RoundUp(rs[j].begin, align) + size > rs[j].end
    ensures i <= j
  {
    if j < i { NoFitInRange(rs, j, size, align, q); }
  }

  lemma {:induction false} FitFromIsFirstFit(rs: seq<Range>, full: nat, size: nat, align: nat, w: nat, i: nat)
    requires w > 0 && IsPow2(align) && align < Pow2(w) && i <= |rs|
    requires full <= (Pow2(w) - 1) / 2 && 0 < size <= full && Within(rs, full)
    requires forall j :: 0 <= j < i ==> RoundUp(rs[j].begin, align) + size > rs[j].end
    ensures forall r :: r in rs ==> r.begin < Pow2(w)
    ensures FirstFit(rs, size, align, FitFrom(rs, size, align, w, i))
    decreases |rs| - i
  {
    if i == |rs| {
      forall q: nat ensures !Fits(rs, size, align, q) {
        if Fits(rs, size, align, q) {
          var j := IntervalInOne(rs, q, q + size);
          NoFitInEarlier(rs, i, j, size, align, q);
        }
      }
    } else {
      var b := RoundUp(rs[i].begin, align);
      NoWrap(rs[i].begin, size, full, align, w);
      AlignUpRounds(rs[i].begin, align, w);
      ModIs(b + size, Pow2(w), 0, b + size);
      if b + size <= rs[i].end {
        FitFromFound(rs, full, size, align, w, i);
      } else {
        FitFromIsFirstFit(rs, full, size, align, w, i + 1);
      }
    }
  }

  /** `allocate` is first fit for every size whose rounding stays inside the word. */
  lemma AllocateIsFirstFit(rs: seq<Range>, full: nat, g: nat, w: nat, size: nat, align: nat)
    requires w > 0 && IsPow2(g) && g < Pow2(w) && IsPow2(align) && align < Pow2(w)
    requires full <= (Pow2(w) - 1) / 2 && Within(rs, full)
    requires 0 < size <= Pow2(w) - 1 - (g - 1)
    ensures forall r :: r in rs ==> r.begin < Pow2(w)
    ensures FirstFit(rs, RoundUp(size, g), Max(align, g), AllocateOn(rs, full, g, w, size, align))
  {
    AlignUpRounds(size, g, w);
    var rounded, a := RoundUp(size, g), Max(align, g);
    if rounded > full {
      forall q: nat ensures !Fits(rs, rounded, a, q) {
        if Fits(rs, rounded, a, q) {
          var j := IntervalInOne(rs, q, q + rounded);
        }
      }
    } else {
      FitFromIsFirstFit(rs, full, rounded, a, w, 0);
    }
  }

  /** A served request gets the room it asked for exactly when rounding its size stays inside the
      word; beyond that the rounded size is zero and so is the range handed out. */
  lemma AllocateServesExactly(rs: seq<Range>, full: nat, g: nat, w: nat, size: nat, align: nat)
    requires w > 0 && IsPow2(g) && g < Pow2(w) && IsPow2(align) && align < Pow2(w)
    requires full <= (Pow2(w) - 1) / 2 && Within(rs, full)
    requires 0 < size < Pow2(w)
    ensures forall r :: r in rs ==> r.begin < Pow2(w)
    ensures var o := AllocateOn(rs, full, g, w, size, align);
            o.result.Some? ==> (o.result.value.Length() >= size <==> size <= Pow2(w) - 1 - (g - 1))
  {
    if size <= Pow2(w) - 1 - (g - 1) {
      AllocateIsFirstFit(rs, full, g, w, size, align);
    } else {
      AlignUpWraps(size, g, w);
      FitFromEmpty(rs, full, Max(align, g), w, 0);
    }
  }

  lemma {:induction false} FitFromEmpty(rs: seq<Range>, full: nat, align: nat, w: nat, i: nat)
    requires w > 0 && IsPow2(align) && align < Pow2(w) && i <= |rs|
    requires full <= (Pow2(w) - 1) / 2 && Within(rs, full)
    ensures forall r :: r in rs ==> r.begin < Pow2(w)
    ensures var o := FitFrom(rs, 0, align, w, i); o.result.Some? ==> o.result.value.begin == o.result.value.end
    decreases |rs| - i
  {
    if i < |rs| {
      var b := AlignUp(rs[i].begin, align, w);
      ModIs(b, Pow2(w), 0, b);
      FitFromEmpty(rs, full, align, w, i + 1);
    }
  }

  // ---- growing a live range

  lemma GrowNeighbour(rs: seq<Range>, range: Range)
    requires Canonical(rs) && range.begin < range.end && Disjoint(rs, range)
    ensures var k := UpperIndex(rs, range);
            Covers(rs, range.end) <==> k < |rs| && rs[k].begin == range.end
  {
    UpperIndexSplits(rs, range);
    var k := UpperIndex(rs, range);
    if k < |rs| && rs[k].begin == range.end { assert rs[k].Has(range.end); }
  }

  /** `grow` succeeds exactly when the rounded extension right after the live range is free, takes
      just that extension out of the free points, and otherwise changes nothing. */
  lemma GrowIsExact(rs: seq<Range>, full: nat, g: nat, w: nat, range: Range, addendum: nat)
    requires IsPow2(g) && g < Pow2(w) && Within(rs, full) && 0 < addendum
    requires range.begin < range.end && Disjoint(rs, range)
    requires range.end + RoundUp(addendum, g) < Pow2(w)
    ensures addendum < Pow2(w)
    ensures var o := GrowOn(rs, g, w, range, addendum);
            var end := range.end + RoundUp(addendum, g);
            && (o.result.Some? <==> CoversAll(rs, range.end, end))
            && (o.result.None? ==> o.ranges == rs)
            && (o.result.Some? ==> o.result.value == Range(range.begin, end) && Taken(rs, Range(range.end, end), o.ranges))
  {
    hide GrowTo, Covers, Canonical, AlignUp, RoundUp, Taken;
    var end := range.end + RoundUp(addendum, g);
    DesiredEnd(range.end, g, w, addendum);
    RoundUpGrows(addendum, g);
    GrowToIsExact(rs, range, end);
  }

  lemma RoundUpGrows(x: nat, g: nat)
    requires 0 < x && 0 < g
    ensures RoundUp(x, g) >= x
  {}

  /** The end `grow` aims for is the rounded one, or lies at or below the old end after a wrap. */
  lemma DesiredEnd(end: nat, g: nat, w: nat, addendum: nat)
    requires IsPow2(g) && g < Pow2(w) && end < Pow2(w) && addendum < Pow2(w)
    ensures var desired := (end + AlignUp(addendum, g, w)) % Pow2(w);
            if end + RoundUp(addendum, g) < Pow2(w) then desired == end + RoundUp(addendum, g) else desired <= end
  {
    AlignUpIs(addendum, g, w);
    ModWrap(end + AlignUp(addendum, g, w), Pow2(w));
  }

  lemma GrowToIsExact(rs: seq<Range>, range: Range, end: nat)
    requires Canonical(rs) && range.begin < range.end < end && Disjoint(rs, range)
    ensures var o := GrowTo(rs, range, end);
            && (o.result.Some? <==> CoversAll(rs, range.end, end))
            && (o.result.None? ==> o.ranges == rs)
            && (o.result.Some? ==> o.result.value == Range(range.begin, end) && Taken(rs, Range(range.end, end), o.ranges))
  {
    GrowNeighbour(rs, range);
    var k := UpperIndex(rs, range);
    if CoversAll(rs, range.end, end) {
      assert Covers(rs, range.end);
      var i := IntervalInOne(rs, range.end, end);
      assert i == k;
      CarveTaken(rs, k, range.end, end);
      assert GrowTo(rs, range, end).ranges == Carve(rs, k, range.end, end);
    }
    if k < |rs| && rs[k].begin == range.end && end <= rs[k].end {
      forall x | range.end <= x < end ensures Covers(rs, x) { assert rs[k].Has(x); }
    }
  }

  /** A successful `grow` adds the room asked for exactly when the new end stays inside the word;
      beyond that it reports success with an end that has not moved forward. */
  lemma GrowServesExactly(rs: seq<Range>, full: nat, g: nat, w: nat, range: Range, addendum: nat)
    requires IsPow2(g) && g < Pow2(w) && Within(rs, full) && 0 < addendum < Pow2(w)
    requires range.begin < range.end < Pow2(w) && Disjoint(rs, range)
    ensures var o := GrowOn(rs, g, w, range, addendum);
            o.result.Some? ==>
              (o.result.value.end >= range.end + addendum <==> range.end + RoundUp(addendum, g) < Pow2(w))
  {
    DesiredEnd(range.end, g, w, addendum);
    GrowNeighbour(rs, range);
  }

  // ---- live and free ranges partition the memory

  ghost predicate LiveAt(live: set<Range>, x: int) {
    exists r :: r in live && r.Has(x)
  }

  ghost predicate Aligned(rs: seq<Range>, g: nat)
    requires g > 0
  {
    forall i :: 0 <= i < |rs| ==> rs[i].begin % g == 0
  }

  ghost predicate LiveRange(r: Range, full: nat, g: nat)
    requires g > 0
  {
    r.begin < r.end <= full && r.begin % g == 0 && (r.end % g == 0 || r.end == full)
  }

  ghost predicate Partition(rs: seq<Range>, live: set<Range>, full: nat, g: nat)
    requires g > 0
  {
    && Within(rs, full) && Aligned(rs, g)
    && (forall r :: r in live ==> LiveRange(r, full, g))
    && (forall r, s, x :: r in live && s in live && r.Has(x) && s.Has(x) ==> r == s)
    && (forall x :: 0 <= x < full ==> (Covers(rs, x) <==> !LiveAt(live, x)))
  }

  lemma FreePointsInside(rs: seq<Range>, full: nat, x: int)
    requires Within(rs, full) && Covers(rs, x)
    ensures 0 <= x < full
  {}

  lemma LiveIsDisjoint(rs: seq<Range>, live: set<Range>, full: nat, g: nat, r: Range)
    requires g > 0 && Partition(rs, live, full, g) && r in live
    ensures Disjoint(rs, r)
  {}

  lemma WithinFromPoints(rs: seq<Range>, full: nat)
    requires Canonical(rs) && forall x :: Covers(rs, x) ==> x < full
    ensures Within(rs, full)
  {
    forall i | 0 <= i < |rs| ensures rs[i].end <= full {
      assert rs[i].Has(rs[i].end - 1);
      assert Covers(rs, rs[i].end - 1);
    }
  }

  lemma AlignedAfterTake(before: seq<Range>, r: Range, after: seq<Range>, full: nat, g: nat)
    requires g > 0 && Within(before, full) && Aligned(before, g) && LiveRange(r, full, g)
    requires CoversAll(before, r.begin, r.end) && Taken(before, r, after)
    ensures Aligned(after, g)
  {
    var i := IntervalInOne(before, r.begin, r.end);
    CarveTaken(before, i, r.begin, r.end);
    CanonicalUnique(after, Carve(before, i, r.begin, r.end));
  }

  lemma TakePartition(before: seq<Range>, live: set<Range>, r: Range, after: seq<Range>, full: nat, g: nat)
    requires g > 0 && Partition(before, live, full, g) && LiveRange(r, full, g)
    requires CoversAll(before, r.begin, r.end) && Taken(before, r, after)
    ensures r !in live && Partition(after, live + {r}, full, g)
  {
    AlignedAfterTake(before, r, after, full, g);
    forall x | Covers(after, x) ensures x < full { FreePointsInside(before, full, x); }
    WithinFromPoints(after, full);
    FreshIsDisjoint(before, live, r, full, g);
    assert forall s :: s in live + {r} <==> s in live || s == r;
    forall x | 0 <= x < full ensures Covers(after, x) <==> !LiveAt(live + {r}, x) {
      assert LiveAt(live + {r}, x) <==> LiveAt(live, x) || r.Has(x);
    }
  }

  lemma FreshIsDisjoint(rs: seq<Range>, live: set<Range>, r: Range, full: nat, g: nat)
    requires g > 0 && Partition(rs, live, full, g) && LiveRange(r, full, g)
    requires CoversAll(rs, r.begin, r.end)
    ensures r !in live
    ensures forall s, x :: s in live && s.Has(x) ==> !r.Has(x)
  {
    forall s, x | s in live && s.Has(x) ensures !r.Has(x) {
      assert LiveAt(live, x);
      assert x < full;
    }
    assert r.Has(r.begin);
  }

  lemma GivePartition(before: seq<Range>, live: set<Range>, r: Range, after: seq<Range>, full: nat, g: nat)
    requires g > 0 && Partition(before, live, full, g) && r in live && after == FreeOn(before, r)
    ensures Given(before, r, after) && Partition(after, live - {r}, full, g)
  {
    LiveIsDisjoint(before, live, full, g, r);
    CoalesceGiven(before, r);
    forall x | Covers(after, x) ensures x < full { if !r.Has(x) { FreePointsInside(before, full, x); } }
    WithinFromPoints(after, full);
    forall x | 0 <= x < full ensures Covers(after, x) <==> !LiveAt(live - {r}, x) {
      if LiveAt(live, x) {
        var s :| s in live && s.Has(x);
        if s != r { assert s in live - {r}; }
      }
    }
  }

  /** Two live ranges that touch may be seen as one. */
  lemma JoinPartition(rs: seq<Range>, live: set<Range>, a: Range, b: Range, full: nat, g: nat)
    requires g > 0 && Partition(rs, live, full, g) && a in live && b in live && a.end == b.begin
    ensures Partition(rs, live - {a, b} + {Range(a.begin, b.end)}, full, g)
  {
    var j := Range(a.begin, b.end);
    var joined := live - {a, b} + {j};
    assert forall x :: j.Has(x) <==> a.Has(x) || b.Has(x);
    forall x | 0 <= x < full ensures LiveAt(joined, x) <==> LiveAt(live, x) {
      if LiveAt(live, x) {
        var s :| s in live && s.Has(x);
        if s == a || s == b { assert j in joined; } else { assert s in joined; }
      }
    }
  }
}
