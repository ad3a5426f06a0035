/** Bit-level arithmetic on unsigned machine words of any width, with words modelled as naturals. */
module Bits {

  function Pow2(k: nat): (p: nat)
    ensures p > 0
  {
    if k == 0 then 1 else 2 * Pow2(k - 1)
  }

  /** `std::has_single_bit`. */
  ghost predicate IsPow2(a: nat) {
    exists k: nat :: a == Pow2(k)
  }

  /** Whether bit `k` of `x` is one. */
  predicate Bit(x: nat, k: nat) {
    if k == 0 then x % 2 == 1 else Bit(x / 2, k - 1)
  }

  /** Bitwise `x & y`. */
  function And(x: nat, y: nat): nat
    decreases x + y
  {
    if x == 0 || y == 0 then 0
    else 2 * And(x / 2, y / 2) + (if x % 2 == 1 && y % 2 == 1 then 1 else 0)
  }

  /** Bitwise `x | y`. */
  function Or(x: nat, y: nat): nat
    decreases x + y
  {
    if x == 0 then y
    else if y == 0 then x
    else 2 * Or(x / 2, y / 2) + (if x % 2 == 1 || y % 2 == 1 then 1 else 0)
  }

  /** Bitwise `~x` in a word of `w` bits. */
  function Not(x: nat, w: nat): nat
    requires x < Pow2(w)
  {
    Pow2(w) - 1 - x
  }

  // ---- bits of the operators

  lemma {:induction false} BitOfZero(k: nat)
    ensures !Bit(0, k)
  {
    if k > 0 { BitOfZero(k - 1); }
  }

  lemma {:induction false} BitAnd(x: nat, y: nat, k: nat)
    ensures Bit(And(x, y), k) <==> Bit(x, k) && Bit(y, k)
  {
    if x == 0 || y == 0 {
      BitOfZero(k);
    } else if k > 0 {
      BitAnd(x / 2, y / 2, k - 1);
    }
  }

  lemma {:induction false} BitOr(x: nat, y: nat, k: nat)
    ensures Bit(Or(x, y), k) <==> Bit(x, k) || Bit(y, k)
  {
    if x == 0 || y == 0 {
      BitOfZero(k);
    } else if k > 0 {
      BitOr(x / 2, y / 2, k - 1);
    }
  }

  lemma {:induction false} BitNot(x: nat, w: nat, k: nat)
    requires x < Pow2(w) && k < w
    ensures Bit(Not(x, w), k) <==> !Bit(x, k)
  {
    assert Not(x, w) / 2 == Not(x / 2, w - 1);
    if k > 0 { BitNot(x / 2, w - 1, k - 1); }
  }

  lemma {:induction false} BitPow2(j: nat, k: nat)
    ensures Bit(Pow2(j), k) <==> j == k
  {
    if k == 0 || j == 0 {
      if k > 0 { BitOfZero(k - 1); }
    } else {
      assert Pow2(j) / 2 == Pow2(j - 1);
      BitPow2(j - 1, k - 1);
    }
  }

  lemma {:induction false} BitHigh(x: nat, w: nat, k: nat)
    requires x < Pow2(w) && w <= k
    ensures !Bit(x, k)
  {
    if w == 0 {
      BitOfZero(k);
    } else {
      BitHigh(x / 2, w - 1, k - 1);
    }
  }

  // ---- sizes of the operators

  lemma {:induction false} AndBound(x: nat, y: nat)
    ensures And(x, y) <= x && And(x, y) <= y
  {
    if x != 0 && y != 0 { AndBound(x / 2, y / 2); }
  }

  lemma {:induction false} OrBound(x: nat, y: nat, w: nat)
    requires x < Pow2(w) && y < Pow2(w)
    ensures Or(x, y) < Pow2(w)
  {
    if x != 0 && y != 0 { OrBound(x / 2, y / 2, w - 1); }
  }

  lemma {:induction false} Pow2Monotone(j: nat, k: nat)
    requires j <= k
    ensures Pow2(j) <= Pow2(k)
    decreases k
  {
    if j < k { Pow2Monotone(j, k - 1); }
  }

  // ---- division facts the solver does not find by itself

  lemma {:induction false} MulStep(m: nat, a: nat, b: nat)
    requires a < b
    ensures m * a + m <= m * b
    decreases b
  {
    if a + 1 < b { MulStep(m, a, b - 1); }
    assert m * b == m * (b - 1) + m;
  }

  lemma ModIs(x: nat, m: nat, q: nat, r: nat)
    requires m > 0 && x == m * q + r && r < m
    ensures x % m == r
  {
    var q', r' := x / m, x % m;
    assert x == m * q' + r';
    if q < q' { MulStep(m, q, q'); }
    if q' < q { MulStep(m, q', q); }
  }

  lemma ModDouble(x: nat, m: nat)
    requires m > 0
    ensures x % (2 * m) == 2 * ((x / 2) % m) + x % 2
  {
    var q, r := (x / 2) / m, (x / 2) % m;
    assert x / 2 == m * q + r;
    assert x == (2 * m) * q + (2 * r + x % 2);
    ModIs(x, 2 * m, q, 2 * r + x % 2);
  }

  lemma {:induction false} AndAllOnes(x: nat, w: nat)
    requires x < Pow2(w)
    ensures And(x, Pow2(w) - 1) == x
  {
    if x > 0 {
      assert (Pow2(w) - 1) / 2 == Pow2(w - 1) - 1 && (Pow2(w) - 1) % 2 == 1;
      AndAllOnes(x / 2, w - 1);
    }
  }

  /** Masking with the complement of `2^k - 1` rounds down to a multiple of `2^k`. */
  lemma {:induction false} AndMask(x: nat, k: nat, w: nat)
    requires x < Pow2(w) && k <= w
    ensures Pow2(k) - 1 < Pow2(w)
    ensures And(x, Not(Pow2(k) - 1, w)) == x - x % Pow2(k)
  {
    Pow2Monotone(k, w);
    if k == 0 {
      AndAllOnes(x, w);
    } else {
      Pow2Monotone(k - 1, w - 1);
      var h, m := Pow2(k - 1), Not(Pow2(k - 1) - 1, w - 1);
      assert Not(Pow2(k) - 1, w) == 2 * m;
      AndMask(x / 2, k - 1, w - 1);
      ModDouble(x, h);
      AndEven(x, m);
    }
  }

  lemma AndEven(x: nat, m: nat)
    ensures And(x, 2 * m) == 2 * And(x / 2, m)
  {
    assert (2 * m) / 2 == m;
  }

  /** `a & ~(a - 1)` keeps the lowest set bit only, so it is `a` just for powers of two. */
  lemma {:induction false} LowestBit(a: nat, w: nat)
    requires 0 < a < Pow2(w)
    ensures And(a, Not(a - 1, w)) == a <==> IsPow2(a)
  {
    var n := Not(a - 1, w);
    if a % 2 == 1 {
      assert n / 2 == Not(a / 2, w - 1);
      AndComplement(a / 2, w - 1);
      if a == 1 {
        assert a == Pow2(0);
      } else {
        forall k: nat ensures a != Pow2(k) { if k > 0 { assert Pow2(k) % 2 == 0; } }
      }
    } else {
      LowestBit(a / 2, w - 1);
      assert n / 2 == Not(a / 2 - 1, w - 1);
      if IsPow2(a / 2) {
        var k: nat :| a / 2 == Pow2(k);
        assert a == Pow2(k + 1);
      }
      if IsPow2(a) {
        var k: nat :| a == Pow2(k);
        assert a / 2 == Pow2(k - 1);
      }
    }
  }

  lemma {:induction false} AndComplement(x: nat, w: nat)
    requires x < Pow2(w)
    ensures And(x, Not(x, w)) == 0
  {
    if x != 0 && Not(x, w) != 0 {
      assert Not(x, w) / 2 == Not(x / 2, w - 1);
      AndComplement(x / 2, w - 1);
    }
  }
}
