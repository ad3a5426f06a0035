/** `bitset<N>`: a set of indices packed into 64-bit words. */
module Bitset {
  import opened Bits

  const SIZE_MAX: nat := Pow2(64) - 1

  /** `std::countr_one` on a word of `w` bits. */
  function CountrOne(x: nat, w: nat): (n: nat)
    ensures n <= w
    ensures forall k :: 0 <= k < n ==> Bit(x, k)
    ensures n < w ==> !Bit(x, n)
  {
    if w == 0 || x % 2 == 0 then 0
    else
      var m := CountrOne(x / 2, w - 1);
      assert forall k :: 0 < k <= m ==> Bit(x, k) by {
        forall k | 0 < k <= m ensures Bit(x, k) { assert Bit(x / 2, k - 1); }
      }
      1 + m
  }

  /** The number of ones among the lowest `k` bits; `std::popcount` is the case of the whole word. */
  function OnesBelow(x: nat, k: nat): nat {
    if k == 0 then 0 else OnesBelow(x, k - 1) + (if Bit(x, k - 1) then 1 else 0)
  }

  predicate BitAt(words: seq<nat>, p: nat)
    requires p < 64 * |words|
  {
    Bit(words[p / 64], p % 64)
  }

  function Members(words: seq<nat>, n: nat): set<nat>
    requires n <= 64 * |words|
  {
    set p | 0 <= p < n && BitAt(words, p)
  }

  /** `NUM_INTS`, which is computed in a word. */
  function NumInts(n: nat): nat {
    (n + 63) % Pow2(64) / 64
  }

  /** There are enough words for every size but the last 63, for which there are none: then the array type is
      not valid either, so that no such bitset exists. */
  lemma NumIntsExact(n: nat)
    requires 0 < n <= SIZE_MAX
    ensures NumInts(n) == if n <= SIZE_MAX - 63 then (n + 63) / 64 else 0
  {
    Pow2Monotone(6, 64);
    ModIs(n + 63, Pow2(64), if n <= SIZE_MAX - 63 then 0 else 1, if n <= SIZE_MAX - 63 then n + 63 else n + 63 - Pow2(64));
  }

  /** Every word fits 64 bits and no bit past the last used one is set. */
  ghost predicate WellFormed(words: seq<nat>, n: nat) {
    && 0 < n <= SIZE_MAX && |words| == (n + 63) / 64
    && (forall i :: 0 <= i < |words| ==> words[i] < Pow2(64))
    && (forall p :: n <= p < 64 * |words| ==> !BitAt(words, p))
  }

  ghost predicate LeastAbsent(s: set<nat>, n: nat, p: nat) {
    p < n && p !in s && forall q :: 0 <= q < p ==> q in s
  }

  ghost predicate Full(s: set<nat>, n: nat) {
    forall q :: 0 <= q < n ==> q in s
  }

  // ---- single-bit updates

  lemma BitAfterSet(words: seq<nat>, pos: nat, p: nat)
    requires pos < 64 * |words| && p < 64 * |words|
    ensures var after := words[pos / 64 := Or(words[pos / 64], Pow2(pos % 64))];
            BitAt(after, p) <==> BitAt(words, p) || p == pos
  {
    if p / 64 == pos / 64 {
      BitOr(words[pos / 64], Pow2(pos % 64), p % 64);
      BitPow2(pos % 64, p % 64);
    }
  }

  lemma BitAfterClear(words: seq<nat>, pos: nat, p: nat)
    requires pos < 64 * |words| && p < 64 * |words| && Pow2(pos % 64) < Pow2(64)
    ensures var after := words[pos / 64 := And(words[pos / 64], Not(Pow2(pos % 64), 64))];
            BitAt(after, p) <==> BitAt(words, p) && p != pos
  {
    if p / 64 == pos / 64 {
      BitAnd(words[pos / 64], Not(Pow2(pos % 64), 64), p % 64);
      BitNot(Pow2(pos % 64), 64, p % 64);
      BitPow2(pos % 64, p % 64);
    }
  }

  lemma MaskFits(k: nat)
    requires k < 64
    ensures Pow2(k) < Pow2(64)
  {
    Pow2Monotone(k + 1, 64);
  }

  /** Setting a bit adds its index to the set and leaves the padding alone. */
  lemma SetAddsIndex(words: seq<nat>, n: nat, pos: nat)
    requires WellFormed(words, n) && pos < n
    ensures var after := words[pos / 64 := Or(words[pos / 64], Pow2(pos % 64))];
            WellFormed(after, n) && Members(after, n) == Members(words, n) + {pos}
  {
    MaskFits(pos % 64);
    OrBound(words[pos / 64], Pow2(pos % 64), 64);
    var after := words[pos / 64 := Or(words[pos / 64], Pow2(pos % 64))];
    forall p | 0 <= p < 64 * |words| ensures BitAt(after, p) <==> BitAt(words, p) || p == pos {
      BitAfterSet(words, pos, p);
    }
  }

  /** Clearing a bit removes its index from the set and leaves the padding alone. */
  lemma ClearRemovesIndex(words: seq<nat>, n: nat, pos: nat)
    requires WellFormed(words, n) && pos < n
    ensures Pow2(pos % 64) < Pow2(64)
    ensures var after := words[pos / 64 := And(words[pos / 64], Not(Pow2(pos % 64), 64))];
            WellFormed(after, n) && Members(after, n) == Members(words, n) - {pos}
  {
    MaskFits(pos % 64);
    AndBound(words[pos / 64], Not(Pow2(pos % 64), 64));
    var after := words[pos / 64 := And(words[pos / 64], Not(Pow2(pos % 64), 64))];
    forall p | 0 <= p < 64 * |words| ensures BitAt(after, p) <==> BitAt(words, p) && p != pos {
      BitAfterClear(words, pos, p);
    }
  }

  lemma OnesBits(k: nat, j: nat)
    ensures Bit(Pow2(k) - 1, j) <==> j < k
  {
    if j < k {
      BitNot(0, k, j);
      BitOfZero(j);
    } else {
      BitHigh(Pow2(k) - 1, k, j);
    }
  }

  lemma AllOnes(words: seq<nat>, n: nat)
    requires 0 < n <= SIZE_MAX && |words| == (n + 63) / 64
    requires forall i :: 0 <= i < |words| - 1 ==> words[i] == Pow2(64) - 1
    requires words[|words| - 1] == (if n % 64 == 0 then Pow2(64) else Pow2(n % 64)) - 1
    ensures WellFormed(words, n) && Full(Members(words, n), n)
  {
    MaskFits(n % 64);
    forall p | 0 <= p < 64 * |words| ensures BitAt(words, p) <==> p < n {
      OneAt(words, n, p);
    }
  }

  lemma OneAt(words: seq<nat>, n: nat, p: nat)
    requires 0 < n && |words| == (n + 63) / 64 && p < 64 * |words|
    requires forall i :: 0 <= i < |words| - 1 ==> words[i] == Pow2(64) - 1
    requires words[|words| - 1] == (if n % 64 == 0 then Pow2(64) else Pow2(n % 64)) - 1
    ensures BitAt(words, p) <==> p < n
  {
    hide Bit, Pow2;
    OnesBits(64, p % 64);
    OnesBits(n % 64, p % 64);
  }

  // ---- counting

  lemma {:induction false} OnesAreMembers(words: seq<nat>, n: nat, i: nat, k: nat)
    requires i < |words| && k <= 64 && n == 64 * i + k
    ensures |Members(words, n)| == |Members(words, 64 * i)| + OnesBelow(words[i], k)
  {
    if k > 0 {
      OnesAreMembers(words, n - 1, i, k - 1);
      assert (n - 1) / 64 == i && (n - 1) % 64 == k - 1;
      assert Members(words, n) == Members(words, n - 1) + (if BitAt(words, n - 1) then {n - 1} else {});
    }
  }

  class Bitset {
    const n: nat
    const data: array<nat>

    ghost predicate Valid()
      reads this, data
    {
      WellFormed(data[..], n)
    }

    /** The indices whose bit is one. */
    ghost function Contents(): set<nat>
      reads this, data
      requires Valid()
    {
      Members(data[..], n)
    }

    constructor (n: nat, value: bool)
      requires 0 < n <= SIZE_MAX
      ensures Valid() && this.n == n && fresh(data)
      ensures if value then Full(Contents(), n) else Contents() == {}
    {
      this.n := n;
      data := new nat[(n + 63) / 64];
      new;
      if value { SetAll(); } else { ClearAll(); }
    }

    method Test(pos: nat) returns (bit: bool)
      requires Valid() && pos < n
      ensures bit <==> pos in Contents()
    {
      bit := And(data[pos / 64], Pow2(pos % 64)) != 0;
      BitTested(data[pos / 64], pos % 64);
    }

    method Set(pos: nat)
      requires Valid() && pos < n
      modifies data
      ensures Valid() && Contents() == old(Contents()) + {pos}
    {
      SetAddsIndex(data[..], n, pos);
      data[pos / 64] := Or(data[pos / 64], Pow2(pos % 64));
      assert data[..] == old(data[..])[pos / 64 := data[pos / 64]];
    }

    method SetAll()
      requires 0 < n <= SIZE_MAX && data.Length == (n + 63) / 64
      modifies data
      ensures Valid() && Full(Contents(), n)
    {
      if n % 64 == 0 {
        forall i | 0 <= i < data.Length { data[i] := Pow2(64) - 1; }
      } else {
        forall i | 0 <= i < data.Length - 1 { data[i] := Pow2(64) - 1; }
        MaskFits(n % 64);
        data[data.Length - 1] := Pow2(n % 64) - 1;
      }
      AllOnes(data[..], n);
    }

    method Clear(pos: nat)
      requires Valid() && pos < n
      modifies data
      ensures Valid() && Contents() == old(Contents()) - {pos}
    {
      ClearRemovesIndex(data[..], n, pos);
      data[pos / 64] := And(data[pos / 64], Not(Pow2(pos % 64), 64));
      assert data[..] == old(data[..])[pos / 64 := data[pos / 64]];
    }

    method ClearAll()
      requires 0 < n <= SIZE_MAX && data.Length == (n + 63) / 64
      modifies data
      ensures Valid() && Contents() == {}
    {
      forall i | 0 <= i < data.Length { data[i] := 0; }
      forall p | 0 <= p < 64 * data.Length ensures !BitAt(data[..], p) { BitOfZero(p % 64); }
    }

    method Popcount() returns (result: nat)
      requires Valid()
      ensures result == |Contents()|
    {
      result := 0;
      var i := 0;
      while i < data.Length
        invariant 0 <= i <= data.Length
        invariant result == |Members(data[..], 64 * i)|
      {
        OnesAreMembers(data[..], 64 * i + 64, i, 64);
        result := result + OnesBelow(data[i], 64);
        i := i + 1;
      }
      assert Members(data[..], 64 * data.Length) == Contents();
    }

    /** The least index whose bit is zero, or `SIZE_MAX` exactly when there is none. */
    method FirstZero() returns (r: nat)
      requires Valid()
      ensures r == SIZE_MAX <==> Full(Contents(), n)
      ensures r != SIZE_MAX ==> LeastAbsent(Contents(), n, r)
    {
      hide Members, BitAt, Full, LeastAbsent, CountrOne, WellFormed;
      NoneIsFull(Contents());
      WordCount(data[..], n);
      var limit := if n % 64 == 0 then data.Length else data.Length - 1;
      var i := 0;
      while i < limit
        invariant 0 <= i <= limit
        invariant Full(Contents(), 64 * i)
      {
        var cnt := CountrOne(data[i], 64);
        if cnt < 64 {
          ZeroFound(data[..], n, i, cnt);
          LeastIsIndex(Contents(), n, i * 64 + cnt);
          return i * 64 + cnt;
        }
        WordIsFull(data[..], n, i);
        i := i + 1;
      }
      if n % 64 != 0 {
        var cnt := CountrOne(data[data.Length - 1], 64);
        if cnt < n % 64 {
          ZeroFound(data[..], n, data.Length - 1, cnt);
          LeastIsIndex(Contents(), n, (data.Length - 1) * 64 + cnt);
          return (data.Length - 1) * 64 + cnt;
        }
        LastWordIsFull(data[..], n);
      }
      return SIZE_MAX;
    }

    /** Sets the lowest zero bit of word `i`, when all words before it are full. */
    method Occupy(i: nat, cnt: nat)
      requires Valid() && i < data.Length && cnt < 64 && 64 * i + cnt < n
      requires cnt == CountrOne(data[i], 64) && Full(Contents(), 64 * i)
      modifies data
      ensures Valid() && Contents() == old(Contents()) + {i * 64 + cnt}
      ensures LeastAbsent(old(Contents()), n, i * 64 + cnt)
    {
      ZeroTaken(data[..], n, i, cnt);
      data[i] := Or(data[i], Pow2(cnt));
      assert data[..] == old(data[..])[i := data[i]];
    }

    /** Takes the least free index, or reports `SIZE_MAX` and changes nothing exactly when there is none. */
    method OccupyZero() returns (r: nat)
      requires Valid()
      modifies data
      ensures Valid()
      ensures r == SIZE_MAX <==> Full(old(Contents()), n)
      ensures r == SIZE_MAX ==> Contents() == old(Contents())
      ensures r != SIZE_MAX ==> LeastAbsent(old(Contents()), n, r) && Contents() == old(Contents()) + {r}
    {
      var limit := if n % 64 == 0 then data.Length else data.Length - 1;
      var i := 0;
      while i < limit
        invariant 0 <= i <= limit && data[..] == old(data[..])
        invariant Full(old(Contents()), 64 * i)
      {
        var cnt := CountrOne(data[i], 64);
        if cnt < 64 {
          Occupy(i, cnt);
          return i * 64 + cnt;
        }
        WordIsFull(data[..], n, i);
        i := i + 1;
      }
      if n % 64 != 0 {
        var last := data.Length - 1;
        var cnt := CountrOne(data[last], 64);
        if cnt < n % 64 {
          Occupy(last, cnt);
          return last * 64 + cnt;
        }
        LastWordIsFull(data[..], n);
      }
      return SIZE_MAX;
    }
  }

  // ---- searching

  lemma {:induction false} SomeBit(x: nat) returns (k: nat)
    requires x != 0
    ensures Bit(x, k)
  {
    if x % 2 == 1 {
      k := 0;
    } else {
      k := SomeBit(x / 2);
      k := k + 1;
    }
  }

  lemma WordPrefix(words: seq<nat>, n: nat, i: nat, cnt: nat)
    requires WellFormed(words, n) && i < |words| && 64 * i + cnt <= n && cnt <= CountrOne(words[i], 64)
    requires Full(Members(words, n), 64 * i)
    ensures Full(Members(words, n), 64 * i + cnt)
  {
    forall q | 64 * i <= q < 64 * i + cnt ensures q in Members(words, n) {
      assert q / 64 == i && Bit(words[i], q % 64);
      assert BitAt(words, q);
    }
  }

  lemma WordIsFull(words: seq<nat>, n: nat, i: nat)
    requires WellFormed(words, n) && i < |words| && 64 * i + 64 <= n && CountrOne(words[i], 64) == 64
    requires Full(Members(words, n), 64 * i)
    ensures Full(Members(words, n), 64 * (i + 1))
  {
    WordPrefix(words, n, i, 64);
  }

  lemma LastWordIsFull(words: seq<nat>, n: nat)
    requires WellFormed(words, n) && n % 64 != 0
    requires CountrOne(words[|words| - 1], 64) >= n % 64
    requires Full(Members(words, n), 64 * (|words| - 1))
    ensures Full(Members(words, n), n)
  {
    WordPrefix(words, n, |words| - 1, n % 64);
  }

  lemma WordCount(words: seq<nat>, n: nat)
    requires WellFormed(words, n)
    ensures 0 < n <= SIZE_MAX && n == 64 * (if n % 64 == 0 then |words| else |words| - 1) + n % 64
  {}

  lemma NoneIsFull(s: set<nat>)
    ensures Full(s, 0)
  {}

  lemma LeastIsIndex(s: set<nat>, n: nat, p: nat)
    requires LeastAbsent(s, n, p)
    ensures p < n && !Full(s, n)
  {}

  lemma ZeroFound(words: seq<nat>, n: nat, i: nat, cnt: nat)
    requires WellFormed(words, n) && i < |words| && cnt < 64 && 64 * i + cnt < n
    requires cnt == CountrOne(words[i], 64) && Full(Members(words, n), 64 * i)
    ensures LeastAbsent(Members(words, n), n, i * 64 + cnt)
  {
    WordPrefix(words, n, i, cnt);
    assert (i * 64 + cnt) / 64 == i && (i * 64 + cnt) % 64 == cnt;
  }

  lemma ZeroTaken(words: seq<nat>, n: nat, i: nat, cnt: nat)
    requires WellFormed(words, n) && i < |words| && cnt < 64 && 64 * i + cnt < n
    requires cnt == CountrOne(words[i], 64) && Full(Members(words, n), 64 * i)
    ensures LeastAbsent(Members(words, n), n, i * 64 + cnt)
    ensures var after := words[i := Or(words[i], Pow2(cnt))];
            WellFormed(after, n) && Members(after, n) == Members(words, n) + {i * 64 + cnt}
  {
    ZeroFound(words, n, i, cnt);
    assert (i * 64 + cnt) / 64 == i && (i * 64 + cnt) % 64 == cnt;
    SetAddsIndex(words, n, i * 64 + cnt);
  }

  lemma BitTested(x: nat, k: nat)
    ensures And(x, Pow2(k)) != 0 <==> Bit(x, k)
  {
    var masked := And(x, Pow2(k));
    BitAnd(x, Pow2(k), k);
    BitPow2(k, k);
    BitOfZero(k);
    if masked != 0 {
      var j := SomeBit(masked);
      BitAnd(x, Pow2(k), j);
      BitPow2(k, j);
    }
  }
}
