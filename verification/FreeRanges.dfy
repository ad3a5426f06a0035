/** Sorted lists of half-open ranges and the sets of points they stand for. */
module FreeRanges {

  datatype Range = Range(begin: nat, end: nat) {
    predicate Has(x: int) {
      begin <= x < end
    }

    function Length(): nat {
      if begin <= end then end - begin else 0
    }
  }

  /** The order of `std::pair`: by `begin`, then by `end`. */
  predicate Less(a: Range, b: Range) {
    a.begin < b.begin || (a.begin == b.begin && a.end < b.end)
  }

  /** It is a strict order with no ties but of equal ranges, in which the begin comes first. */
  lemma PairOrder(a: Range, b: Range, c: Range)
    ensures !(Less(a, b) && Less(b, a)) && (a != b ==> Less(a, b) || Less(b, a))
    ensures Less(a, b) && Less(b, c) ==> Less(a, c)
    ensures Less(a, b) ==> a.begin <= b.begin && (a.begin == b.begin ==> a.end < b.end)
  {}

  /** Non-empty ranges in increasing order with a real gap between any two. */
  ghost predicate Canonical(rs: seq<Range>) {
    && (forall i :: 0 <= i < |rs| ==> rs[i].begin < rs[i].end)
    && (forall i, j :: 0 <= i < j < |rs| ==> rs[i].end < rs[j].begin)
  }

  ghost predicate Covers(rs: seq<Range>, x: int) {
    exists i :: 0 <= i < |rs| && rs[i].Has(x)
  }

  ghost predicate CoversAll(rs: seq<Range>, begin: int, end: int) {
    forall x :: begin <= x < end ==> Covers(rs, x)
  }

  /** `after` is the canonical list of the points of `before` outside `r`. */
  ghost predicate Taken(before: seq<Range>, r: Range, after: seq<Range>) {
    && Canonical(after)
    && forall x :: Covers(after, x) <==> Covers(before, x) && !r.Has(x)
  }

  /** `after` is the canonical list of the points of `before` together with those of `r`. */
  ghost predicate Given(before: seq<Range>, r: Range, after: seq<Range>) {
    && Canonical(after)
    && forall x :: Covers(after, x) <==> Covers(before, x) || r.Has(x)
  }

  function Total(rs: seq<Range>): nat {
    if rs == [] then 0 else rs[0].Length() + Total(rs[1..])
  }

  /** `std::upper_bound`: the number of elements before the first one greater than `key`. */
  function UpperIndex(rs: seq<Range>, key: Range): (k: nat)
    ensures k <= |rs|
    ensures forall j :: 0 <= j < k ==> !Less(key, rs[j])
    ensures k < |rs| ==> Less(key, rs[k])
  {
    if rs == [] || Less(key, rs[0]) then 0 else 1 + UpperIndex(rs[1..], key)
  }

  lemma {:induction false} UpperIndexIs(rs: seq<Range>, key: Range, k: nat)
    requires k <= |rs| && forall j :: 0 <= j < k ==> !Less(key, rs[j])
    requires k < |rs| ==> Less(key, rs[k])
    ensures UpperIndex(rs, key) == k
  {
    if rs != [] && !Less(key, rs[0]) { UpperIndexIs(rs[1..], key, k - 1); }
  }

  /** What is left of the list once `[b, e)` has been cut out of its `i`-th range. */
  function Carve(rs: seq<Range>, i: nat, b: nat, e: nat): seq<Range>
    requires i < |rs|
  {
    rs[..i]
    + (if rs[i].begin < b then [Range(rs[i].begin, b)] else [])
    + (if e < rs[i].end then [Range(e, rs[i].end)] else [])
    + rs[i + 1..]
  }

  /** The list with `r` put in at index `k` and merged with the neighbours it touches. */
  function Coalesce(rs: seq<Range>, k: nat, r: Range): seq<Range>
    requires k <= |rs|
  {
    var lo := if k > 0 && rs[k - 1].end == r.begin then k - 1 else k;
    var hi := if k < |rs| && rs[k].begin == r.end then k + 1 else k;
    var merged := Range(if lo < k then rs[lo].begin else r.begin, if k < hi then rs[k].end else r.end);
    rs[..lo] + [merged] + rs[hi..]
  }

  // ---- the canonical list of a set of points is unique

  lemma TailCovers(rs: seq<Range>, x: int)
    requires Canonical(rs) && rs != []
    ensures Covers(rs[1..], x) <==> Covers(rs, x) && rs[0].end <= x
  {
    if Covers(rs[1..], x) {
      var i :| 0 <= i < |rs[1..]| && rs[1..][i].Has(x);
      assert rs[i + 1].Has(x);
    }
    if Covers(rs, x) && rs[0].end <= x {
      var i :| 0 <= i < |rs| && rs[i].Has(x);
      assert rs[1..][i - 1].Has(x);
    }
  }

  lemma EndUncovered(rs: seq<Range>, i: nat)
    requires Canonical(rs) && i < |rs|
    ensures !Covers(rs, rs[i].end)
    ensures forall x :: rs[i].Has(x) ==> Covers(rs, x)
  {}

  lemma HeadsAgree(a: seq<Range>, b: seq<Range>)
    requires Canonical(a) && Canonical(b) && a != [] && b != []
    requires forall x :: Covers(a, x) <==> Covers(b, x)
    ensures a[0].begin <= b[0].begin && a[0].end <= b[0].end
  {
    EndUncovered(a, 0);
    EndUncovered(b, 0);
    assert b[0].Has(b[0].begin);
    assert Covers(a, b[0].begin);
    assert !a[0].Has(b[0].end);
  }

  lemma TailsAgree(a: seq<Range>, b: seq<Range>)
    requires Canonical(a) && Canonical(b) && a != [] && b != []
    requires forall x :: Covers(a, x) <==> Covers(b, x)
    ensures a[0] == b[0]
    ensures forall x :: Covers(a[1..], x) <==> Covers(b[1..], x)
  {
    HeadsAgree(a, b);
    HeadsAgree(b, a);
    forall x ensures Covers(a[1..], x) <==> Covers(b[1..], x) {
      TailCovers(a, x);
      TailCovers(b, x);
    }
  }

  lemma {:induction false} CanonicalUnique(a: seq<Range>, b: seq<Range>)
    requires Canonical(a) && Canonical(b)
    requires forall x :: Covers(a, x) <==> Covers(b, x)
    ensures a == b
  {
    if a == [] || b == [] {
      if a != [] { assert a[0].Has(a[0].begin); assert Covers(a, a[0].begin); }
      if b != [] { assert b[0].Has(b[0].begin); assert Covers(b, b[0].begin); }
    } else {
      TailsAgree(a, b);
      CanonicalUnique(a[1..], b[1..]);
      assert a == [a[0]] + a[1..] && b == [b[0]] + b[1..];
    }
  }

  /** In a canonical list a covered interval never spans two ranges: the gap is not covered. */
  lemma IntervalInOne(rs: seq<Range>, begin: int, end: int) returns (i: nat)
    requires Canonical(rs) && begin < end && CoversAll(rs, begin, end)
    ensures i < |rs| && rs[i].begin <= begin && end <= rs[i].end
  {
    assert Covers(rs, begin);
    i :| 0 <= i < |rs| && rs[i].Has(begin);
    EndUncovered(rs, i);
  }

  // ---- replacing a block of the list

  lemma CoversConcat(a: seq<Range>, b: seq<Range>, x: int)
    ensures Covers(a + b, x) <==> Covers(a, x) || Covers(b, x)
  {
    if Covers(a, x) {
      var i :| 0 <= i < |a| && a[i].Has(x);
      assert (a + b)[i].Has(x);
    }
    if Covers(b, x) {
      var i :| 0 <= i < |b| && b[i].Has(x);
      assert (a + b)[|a| + i].Has(x);
    }
  }

  ghost predicate Below(rs: seq<Range>, x: int) {
    forall i :: 0 <= i < |rs| ==> rs[i].end < x
  }

  ghost predicate Above(rs: seq<Range>, x: int) {
    forall i :: 0 <= i < |rs| ==> x < rs[i].begin
  }

  lemma SpliceCanonical(a: seq<Range>, m: seq<Range>, b: seq<Range>, begin: int, end: int)
    requires Canonical(a) && Canonical(m) && Canonical(b) && begin <= end
    requires Below(a, begin) && Above(b, end)
    requires forall i :: 0 <= i < |m| ==> begin <= m[i].begin && m[i].end <= end
    ensures Canonical(a + m + b)
  {
    var c := a + m + b;
    forall i, j | 0 <= i < j < |c| ensures c[i].end < c[j].begin {
      if |a| + |m| <= j {
        assert c[j] == b[j - |a| - |m|];
      }
    }
  }

  lemma SpliceCovers(a: seq<Range>, m: seq<Range>, b: seq<Range>, x: int)
    ensures Covers(a + m + b, x) <==> Covers(a, x) || Covers(m, x) || Covers(b, x)
  {
    CoversConcat(a + m, b, x);
    CoversConcat(a, m, x);
  }

  // ---- cutting out

  lemma CarveTaken(rs: seq<Range>, i: nat, b: nat, e: nat)
    requires Canonical(rs) && i < |rs| && rs[i].begin <= b < e <= rs[i].end
    ensures Taken(rs, Range(b, e), Carve(rs, i, b, e))
  {
    hide Covers, Canonical, Carve;
    CarveCanonical(rs, i, b, e);
    forall x ensures Covers(Carve(rs, i, b, e), x) <==> Covers(rs, x) && !Range(b, e).Has(x) {
      OthersOutside(rs, i, x);
      PiecesCover(rs[..i], rs[i], rs[i + 1..], b, e, x);
    }
  }

  /** What is left of a range once `[b, e)` has been cut out. */
  function Pieces(r: Range, b: nat, e: nat): seq<Range> {
    (if r.begin < b then [Range(r.begin, b)] else []) + (if e < r.end then [Range(e, r.end)] else [])
  }

  lemma CarveCanonical(rs: seq<Range>, i: nat, b: nat, e: nat)
    requires Canonical(rs) && i < |rs| && rs[i].begin <= b < e <= rs[i].end
    ensures Carve(rs, i, b, e) == rs[..i] + Pieces(rs[i], b, e) + rs[i + 1..]
    ensures Canonical(Carve(rs, i, b, e))
  {
    SpliceCanonical(rs[..i], Pieces(rs[i], b, e), rs[i + 1..], rs[i].begin, rs[i].end);
  }

  lemma OthersOutside(rs: seq<Range>, i: nat, x: int)
    requires Canonical(rs) && i < |rs|
    ensures Covers(rs[..i], x) || Covers(rs[i + 1..], x) ==> !rs[i].Has(x)
    ensures rs == rs[..i] + [rs[i]] + rs[i + 1..]
  {}

  lemma PiecesCover(lower: seq<Range>, r: Range, upper: seq<Range>, b: nat, e: nat, x: int)
    requires r.begin <= b < e <= r.end && (Covers(lower, x) || Covers(upper, x) ==> !r.Has(x))
    ensures Covers(lower + Pieces(r, b, e) + upper, x) <==> Covers(lower + [r] + upper, x) && !Range(b, e).Has(x)
  {
    hide Covers;
    SpliceCovers(lower, Pieces(r, b, e), upper, x);
    SpliceCovers(lower, [r], upper, x);
    CoversConcat(if r.begin < b then [Range(r.begin, b)] else [], if e < r.end then [Range(e, r.end)] else [], x);
    SingletonCovers(r, x);
    SingletonCovers(Range(r.begin, b), x);
    SingletonCovers(Range(e, r.end), x);
    NothingCovers(x);
  }

  lemma NothingCovers(x: int)
    ensures !Covers([], x)
  {}

  lemma SingletonCovers(r: Range, x: int)
    ensures Covers([r], x) <==> r.Has(x)
  {
    if r.Has(x) { assert [r][0].Has(x); }
  }

  lemma {:induction false} TotalConcat(a: seq<Range>, b: seq<Range>)
    ensures Total(a + b) == Total(a) + Total(b)
  {
    if a == [] {
      assert a + b == b;
    } else {
      assert (a + b)[1..] == a[1..] + b;
      TotalConcat(a[1..], b);
    }
  }

  lemma TotalSplit(rs: seq<Range>, i: nat)
    requires i < |rs|
    ensures Total(rs) == Total(rs[..i]) + rs[i].Length() + Total(rs[i + 1..])
  {
    assert rs == rs[..i] + rs[i..] && rs[i..][1..] == rs[i + 1..];
    TotalConcat(rs[..i], rs[i..]);
  }

  /** Cutting a range out of the covered points lowers their number by exactly its length. */
  lemma TakenTotal(before: seq<Range>, r: Range, after: seq<Range>)
    requires Canonical(before) && r.begin < r.end && CoversAll(before, r.begin, r.end)
    requires Taken(before, r, after)
    ensures Total(after) == Total(before) - r.Length()
  {
    var i := IntervalInOne(before, r.begin, r.end);
    CarveTaken(before, i, r.begin, r.end);
    CanonicalUnique(after, Carve(before, i, r.begin, r.end));
    CarveTotal(before, i, r.begin, r.end);
  }

  lemma CarveTotal(rs: seq<Range>, i: nat, b: nat, e: nat)
    requires i < |rs| && rs[i].begin <= b < e <= rs[i].end
    ensures Total(Carve(rs, i, b, e)) == Total(rs) - (e - b)
  {
    var p := if rs[i].begin < b then [Range(rs[i].begin, b)] else [];
    var q := if e < rs[i].end then [Range(e, rs[i].end)] else [];
    TotalSplit(rs, i);
    TotalConcat(rs[..i] + p + q, rs[i + 1..]);
    TotalConcat(rs[..i] + p, q);
    TotalConcat(rs[..i], p);
    assert forall r: Range :: Total([r]) == r.Length();
  }

  // ---- putting back

  ghost predicate Disjoint(rs: seq<Range>, r: Range) {
    forall x :: r.Has(x) ==> !Covers(rs, x)
  }

  /** The insertion point found by the pair order lies between the ranges below and above `r`. */
  lemma UpperIndexSplits(rs: seq<Range>, r: Range)
    requires Canonical(rs) && r.begin < r.end && Disjoint(rs, r)
    ensures forall j :: 0 <= j < UpperIndex(rs, r) ==> rs[j].end <= r.begin
    ensures forall j :: UpperIndex(rs, r) <= j < |rs| ==> r.end <= rs[j].begin
  {
    forall j | 0 <= j < |rs| ensures rs[j].end <= r.begin || r.end <= rs[j].begin {
      if r.begin < rs[j].end && rs[j].begin < r.end {
        var x := if r.begin < rs[j].begin then rs[j].begin else r.begin;
        assert r.Has(x) && rs[j].Has(x);
        assert Covers(rs, x);
      }
    }
  }

  lemma CoalesceGiven(rs: seq<Range>, r: Range)
    requires Canonical(rs) && r.begin < r.end && Disjoint(rs, r)
    ensures Given(rs, r, Coalesce(rs, UpperIndex(rs, r), r))
  {
    UpperIndexSplits(rs, r);
    var k := UpperIndex(rs, r);
    var lo := if k > 0 && rs[k - 1].end == r.begin then k - 1 else k;
    var hi := if k < |rs| && rs[k].begin == r.end then k + 1 else k;
    var merged := Range(if lo < k then rs[lo].begin else r.begin, if k < hi then rs[k].end else r.end);
    MergedIsBetween(rs, lo, k, hi, r, merged);
    SpliceCanonical(rs[..lo], [merged], rs[hi..], merged.begin, merged.end);
    forall x ensures Covers(Coalesce(rs, k, r), x) <==> Covers(rs, x) || r.Has(x) {
      MergedCovers(rs, lo, k, hi, r, merged, x);
    }
  }

  lemma MergedCovers(rs: seq<Range>, lo: nat, k: nat, hi: nat, r: Range, merged: Range, x: int)
    requires lo <= k <= hi <= |rs| && k <= lo + 1 && hi <= k + 1 && r.begin < r.end && Canonical(rs)
    requires (lo < k ==> rs[lo].end == r.begin) && (k < hi ==> rs[k].begin == r.end)
    requires merged == Range(if lo < k then rs[lo].begin else r.begin, if k < hi then rs[k].end else r.end)
    ensures Covers(rs[..lo] + [merged] + rs[hi..], x) <==> Covers(rs, x) || r.Has(x)
  {
    assert rs == rs[..lo] + rs[lo..hi] + rs[hi..];
    SpliceCovers(rs[..lo], [merged], rs[hi..], x);
    SpliceCovers(rs[..lo], rs[lo..hi], rs[hi..], x);
    SingletonCovers(merged, x);
    MergedBlock(rs, lo, k, hi, r, x);
  }

  lemma MergedIsBetween(rs: seq<Range>, lo: nat, k: nat, hi: nat, r: Range, merged: Range)
    requires lo <= k <= hi <= |rs| && r.begin < r.end && Canonical(rs)
    requires lo == (if k > 0 && rs[k - 1].end == r.begin then k - 1 else k)
    requires hi == (if k < |rs| && rs[k].begin == r.end then k + 1 else k)
    requires forall j :: 0 <= j < k ==> rs[j].end <= r.begin
    requires forall j :: k <= j < |rs| ==> r.end <= rs[j].begin
    requires merged == Range(if lo < k then rs[lo].begin else r.begin, if k < hi then rs[k].end else r.end)
    ensures merged.begin < merged.end && Below(rs[..lo], merged.begin) && Above(rs[hi..], merged.end)
    ensures Canonical(rs[..lo]) && Canonical(rs[hi..])
  {
    forall j | hi <= j < |rs| ensures merged.end < rs[j].begin {
      if k < hi { assert rs[k].end < rs[j].begin; }
    }
  }

  lemma MergedBlock(rs: seq<Range>, lo: nat, k: nat, hi: nat, r: Range, x: int)
    requires lo <= k <= hi <= |rs| && k <= lo + 1 && hi <= k + 1
    requires r.begin < r.end && Canonical(rs)
    requires lo < k ==> rs[lo].end == r.begin
    requires k < hi ==> rs[k].begin == r.end
    ensures Covers(rs[lo..hi], x) || r.Has(x)
       <==> (if lo < k then rs[lo].begin else r.begin) <= x < (if k < hi then rs[k].end else r.end)
  {
    var m := rs[lo..hi];
    if lo < k && rs[lo].Has(x) { assert m[0].Has(x); }
    if k < hi && rs[k].Has(x) { assert m[k - lo].Has(x); }
  }

  /** Putting a disjoint range back raises the number of covered points by exactly its length. */
  lemma GivenTotal(before: seq<Range>, r: Range, after: seq<Range>)
    requires Canonical(before) && r.begin < r.end && Disjoint(before, r) && Given(before, r, after)
    ensures Total(after) == Total(before) + r.Length()
  {
    forall x ensures Covers(before, x) <==> Covers(after, x) && !r.Has(x) {}
    TakenTotal(after, r, before);
  }
}
