/** The wrap-around arithmetic of `align_up` against the least multiple it stands for. */
module Alignment {
  import opened Bits

  /** The least multiple of `a` that is not below `x`, on unbounded integers. */
  function RoundUp(x: nat, a: nat): (r: nat)
    requires a > 0
    ensures r % a == 0 && x <= r < x + a
  {
    var y := x + a - 1;
    ModIs(y - y % a, a, y / a, 0);
    y - y % a
  }

  /** `align_up` as written: a wrapping sum, then a mask. */
  function AlignUp(x: nat, a: nat, w: nat): (r: nat)
    requires x < Pow2(w) && 0 < a < Pow2(w)
    ensures r < Pow2(w)
  {
    var sum := (x + a - 1) % Pow2(w);
    AndBound(sum, Not(a - 1, w));
    And(sum, Not(a - 1, w))
  }

  lemma MultipleGap(p: nat, q: nat, a: nat)
    requires a > 0 && p % a == 0 && q % a == 0 && p < q
    ensures p + a <= q
  {
    assert p == a * (p / a) && q == a * (q / a);
    if q / a <= p / a {
      MulLe(a, q / a, p / a);
    }
    MulStep(a, p / a, q / a);
  }

  lemma MulLe(a: nat, m: nat, n: nat)
    requires m <= n
    ensures a * m <= a * n
  {
    if m < n { MulStep(a, m, n); }
  }

  lemma RoundUpLeast(x: nat, a: nat, p: nat)
    requires a > 0 && x <= p && p % a == 0
    ensures RoundUp(x, a) <= p
  {
    if p < RoundUp(x, a) { MultipleGap(p, RoundUp(x, a), a); }
  }

  lemma {:induction false} Pow2Divides(j: nat, k: nat)
    requires j <= k
    ensures Pow2(k) % Pow2(j) == 0
  {
    if j == 0 {
    } else {
      Pow2Divides(j - 1, k - 1);
      ModDouble(Pow2(k), Pow2(j - 1));
    }
  }

  lemma {:induction false} Pow2Order(j: nat, k: nat)
    requires Pow2(j) <= Pow2(k)
    ensures j <= k
  {
    if k < j {
      Pow2Monotone(k + 1, j);
    }
  }

  /** A multiple of the larger of two powers of two is a multiple of the smaller one. */
  lemma MultipleOfSmaller(p: nat, a: nat, b: nat)
    requires IsPow2(a) && IsPow2(b) && a <= b && p % b == 0
    ensures p % a == 0
  {
    var j: nat :| a == Pow2(j);
    var k: nat :| b == Pow2(k);
    Pow2Order(j, k);
    Pow2Divides(j, k);
    MultipleOfMultiple(p, a, b);
  }

  lemma MultipleOfMultiple(p: nat, a: nat, b: nat)
    requires a > 0 && b > 0 && b % a == 0 && p % b == 0
    ensures p % a == 0
  {
    var m, q := b / a, p / b;
    assert b == a * m && p == b * q;
    MulAssociates(a, m, q);
    ModIs(p, a, m * q, 0);
  }

  lemma MulAssociates(a: nat, m: nat, q: nat)
    ensures (a * m) * q == a * (m * q)
  {}

  /** The mask form is the least multiple as long as the sum stays inside the word. */
  lemma AlignUpRounds(x: nat, a: nat, w: nat)
    requires IsPow2(a) && a < Pow2(w) && x + a - 1 < Pow2(w)
    ensures AlignUp(x, a, w) == RoundUp(x, a)
  {
    var k: nat :| a == Pow2(k);
    Pow2Order(k, w);
    ModIs(x + a - 1, Pow2(w), 0, x + a - 1);
    AndMask(x + a - 1, k, w);
  }

  /** ... and zero once it leaves the word. */
  lemma AlignUpWraps(x: nat, a: nat, w: nat)
    requires IsPow2(a) && a < Pow2(w) && x < Pow2(w) <= x + a - 1
    ensures AlignUp(x, a, w) == 0
    ensures RoundUp(x, a) == Pow2(w)
  {
    var k: nat :| a == Pow2(k);
    Pow2Order(k, w);
    var sum := x + a - 1 - Pow2(w);
    ModIs(x + a - 1, Pow2(w), 1, sum);
    AndMask(sum, k, w);
    ModIs(sum, a, 0, sum);
    Pow2Divides(k, w);
    RoundUpLeast(x, a, Pow2(w));
    if RoundUp(x, a) < Pow2(w) { MultipleGap(RoundUp(x, a), Pow2(w), a); }
  }

  /** The mask form is always the least multiple modulo the word. */
  lemma AlignUpIs(x: nat, a: nat, w: nat)
    requires IsPow2(a) && a < Pow2(w) && x < Pow2(w)
    ensures RoundUp(x, a) <= Pow2(w)
    ensures AlignUp(x, a, w) == if RoundUp(x, a) < Pow2(w) then RoundUp(x, a) else 0
  {
    if x + a - 1 < Pow2(w) { AlignUpRounds(x, a, w); } else { AlignUpWraps(x, a, w); }
  }

  lemma ModWrap(x: nat, m: nat)
    requires x < m + m
    ensures x % m == if x < m then x else x - m
  {
    if x < m { ModIs(x, m, 0, x); } else { ModIs(x, m, 1, x - m); }
  }

  /** The mask form computes the least multiple for every argument that leaves room for the sum
      exactly when the alignment is a power of two. */
  lemma MaskFormExact(a: nat, w: nat)
    requires 0 < a < Pow2(w)
    ensures (forall x: nat :: x + a - 1 < Pow2(w) ==> AlignUp(x, a, w) == RoundUp(x, a)) <==> IsPow2(a)
  {
    if IsPow2(a) {
      forall x: nat | x + a - 1 < Pow2(w) ensures AlignUp(x, a, w) == RoundUp(x, a) {
        AlignUpRounds(x, a, w);
      }
    } else {
      LowestBit(a, w);
      var one: nat := 1;
      ModIs(a, Pow2(w), 0, a);
      RoundUpLeast(one, a, a);
      assert AlignUp(one, a, w) != RoundUp(one, a);
    }
  }

  /** The safety margin of the constructor: with `full <= MAX / 2` neither sum made for a range
      start leaves the word, even for the largest alignment. */
  lemma NoWrap(begin: nat, size: nat, full: nat, a: nat, w: nat)
    requires w > 0 && IsPow2(a) && a < Pow2(w)
    requires begin <= full && size <= full && full <= (Pow2(w) - 1) / 2
    ensures begin + a - 1 < Pow2(w)
    ensures RoundUp(begin, a) + size < Pow2(w)
  {
    var k: nat :| a == Pow2(k);
    Pow2Order(k, w);
    Pow2Monotone(k, w - 1);
    Pow2Divides(k, w - 1);
    RoundUpLeast(begin, a, Pow2(w - 1));
  }

  /** The same margin covers `grow`: with an addendum up to `MAX / 2` neither of its sums, after a
      range that ends inside the memory, leaves the word. */
  lemma GrowNoWrap(end: nat, addendum: nat, full: nat, g: nat, w: nat)
    requires w > 0 && IsPow2(g) && g < Pow2(w)
    requires end <= full <= (Pow2(w) - 1) / 2 && addendum <= (Pow2(w) - 1) / 2
    ensures addendum + g - 1 < Pow2(w)
    ensures end + RoundUp(addendum, g) < Pow2(w)
  {
    NoWrap(addendum, end, (Pow2(w) - 1) / 2, g, w);
  }

  // ---- the mask form with an alignment that need not be a power of two

  lemma {:induction false} AndSplits(x: nat, m: nat, w: nat)
    requires x < Pow2(w) && m < Pow2(w)
    ensures And(x, m) + And(x, Not(m, w)) == x
  {
    if w > 0 {
      assert Not(m, w) / 2 == Not(m / 2, w - 1);
      AndSplits(x / 2, m / 2, w - 1);
    }
  }

  /** Inside the word it never rounds down ... */
  lemma AlignUpIsUp(x: nat, a: nat, w: nat)
    requires x < Pow2(w) && 0 < a < Pow2(w) && x + a - 1 < Pow2(w)
    ensures x <= AlignUp(x, a, w)
  {
    ModIs(x + a - 1, Pow2(w), 0, x + a - 1);
    AndSplits(x + a - 1, a - 1, w);
    AndBound(x + a - 1, a - 1);
  }

  /** ... and past it always does. */
  lemma AlignUpIsDown(x: nat, a: nat, w: nat)
    requires x < Pow2(w) && 0 < a < Pow2(w) && x + a - 1 >= Pow2(w)
    ensures AlignUp(x, a, w) < x
  {
    var sum := x + a - 1 - Pow2(w);
    ModIs(x + a - 1, Pow2(w), 1, sum);
    AndBound(sum, Not(a - 1, w));
  }

  lemma {:induction false} LowBitsMasked(x: nat, m: nat, k: nat, w: nat)
    requires x + m < Pow2(w) && x % Pow2(k) == 0
    ensures And(x + m, Not(m, w)) % Pow2(k) == 0
  {
    if k > 0 && w > 0 {
      ModDouble(x, Pow2(k - 1));
      assert Not(m, w) / 2 == Not(m / 2, w - 1) && (x + m) / 2 == x / 2 + m / 2;
      LowBitsMasked(x / 2, m / 2, k - 1, w - 1);
      ModDouble(And(x + m, Not(m, w)), Pow2(k - 1));
    }
  }

  /** It keeps a multiple of a power of two a multiple, whatever the alignment. */
  lemma AlignUpKeepsMultiple(x: nat, a: nat, g: nat, w: nat)
    requires IsPow2(g) && x % g == 0 && x < Pow2(w) && 0 < a < Pow2(w) && x + a - 1 < Pow2(w)
    ensures AlignUp(x, a, w) % g == 0
  {
    var k: nat :| g == Pow2(k);
    ModIs(x + a - 1, Pow2(w), 0, x + a - 1);
    LowBitsMasked(x, a - 1, k, w);
  }
}
