/** What the converters of ConvertUTF.c compute, against the Unicode Standard. */
module ConvertUTFLaws {
  import opened Conversion
  import opened Unicode
  import opened ConvertUTF

  // ---- writing one character

  lemma TrailingIsTrail(ch: bv32)
    ensures TrailingByte(ch) == Trail(ch)
  {}

  lemma FirstBytes(ch: bv32)
    ensures ch < 0x80 ==> FirstByte(ch, 1) == (ch & 0x7F) as bv8
    ensures ch < 0x800 ==> FirstByte(ch >> 6, 2) == Lead2(ch)
    ensures ch < 0x10000 ==> FirstByte(ch >> 6 >> 6, 3) == Lead3(ch)
    ensures ch < 0x110000 ==> FirstByte(ch >> 6 >> 6 >> 6, 4) == Lead4(ch)
  {}

  lemma ShiftsAdd(ch: bv32)
    ensures ch >> 6 >> 6 == ch >> 12
  {}

  /** The back-to-front writing switch produces the bit distribution of Table 3-6. */
  lemma WritesUtf8(ch: bv32)
    requires ch <= 0x10FFFF
    ensures WrittenBytes(ch, BytesToWrite(ch)) == Utf8(ch)
  {
    FirstBytes(ch);
    ShiftsAdd(ch);
    TrailingIsTrail(ch);
    TrailingIsTrail(ch >> 6);
    TrailingIsTrail(ch >> 12);
  }

  /** The surrogate arithmetic produces the pair of D91. */
  lemma WritesUtf16(ch: bv32)
    requires 0x10000 <= ch <= 0x10FFFF
    ensures UnitsOf(ch) == Utf16(ch)
  {}

  // ---- reading one character

  lemma PairArithmetic(ch: bv32)
    requires 0x10000 <= ch <= 0x10FFFF
    ensures 0xD800 <= High(ch) <= 0xDBFF && 0xDC00 <= Low(ch) <= 0xDFFF
    ensures PairValue(High(ch), Low(ch)) == ch
  {}

  lemma ReadsPair(s: seq<bv16>, flags: Flags)
    requires |s| >= 2 && 0xD800 <= s[0] <= 0xDBFF && 0xDC00 <= s[1] <= 0xDFFF
    ensures Read16(s, flags) == Character(PairValue(s[0], s[1]), 2)
  {}

  lemma ReadsSingle(s: seq<bv16>, ch: bv32, flags: Flags)
    requires s != [] && s[0] as bv32 == ch && (s[0] < 0xD800 || 0xDFFF < s[0])
    ensures Read16(s, flags) == Character(ch, 1)
  {}

  lemma SingleUnit(ch: bv32)
    requires Scalar(ch) && ch < 0x10000
    ensures var u := (ch & 0xFFFF) as bv16; u as bv32 == ch && (u < 0xD800 || 0xDFFF < u)
  {}

  lemma Utf16Units(ch: bv32, rest: seq<bv16>)
    ensures var s := Utf16(ch) + rest;
            if ch < 0x10000 then |Utf16(ch)| == 1 && s[0] == (ch & 0xFFFF) as bv16
            else |Utf16(ch)| == 2 && s[0] == High(ch) && s[1] == Low(ch)
  {}

  lemma ReadsUtf16(ch: bv32, rest: seq<bv16>, flags: Flags)
    requires Scalar(ch)
    ensures Read16(Utf16(ch) + rest, flags) == Character(ch, |Utf16(ch)|)
  {
    Utf16Units(ch, rest);
    if ch < 0x10000 {
      ReadsOneUnit(ch, Utf16(ch) + rest, flags);
    } else {
      ReadsTwoUnits(ch, Utf16(ch) + rest, flags);
    }
  }

  lemma ReadsOneUnit(ch: bv32, s: seq<bv16>, flags: Flags)
    requires Scalar(ch) && ch < 0x10000 && |s| >= 1 && s[0] == (ch & 0xFFFF) as bv16
    ensures Read16(s, flags) == Character(ch, 1)
  {
    SingleUnit(ch);
    ReadsSingle(s, ch, flags);
  }

  lemma ReadsTwoUnits(ch: bv32, s: seq<bv16>, flags: Flags)
    requires 0x10000 <= ch <= 0x10FFFF && |s| >= 2 && s[0] == High(ch) && s[1] == Low(ch)
    ensures Read16(s, flags) == Character(ch, 2)
  {
    PairArithmetic(ch);
    ReadsPair(s, flags);
  }

  function Sum2(a: bv8, b: bv8): bv32 {
    Push(a as bv32, b) - Offset(1)
  }

  function Sum3(a: bv8, b: bv8, c: bv8): bv32 {
    Push(Push(a as bv32, b), c) - Offset(2)
  }

  function Sum4(a: bv8, b: bv8, c: bv8, d: bv8): bv32 {
    Push(Push(Push(a as bv32, b), c), d) - Offset(3)
  }

  // The magic offsets take the marker bits out again.

  lemma Offsets2(ch: bv32)
    requires ch < 0x800
    ensures Sum2(Lead2(ch), Trail(ch)) == ch
  {}

  lemma Offsets3(ch: bv32)
    requires ch < 0x10000
    ensures Sum3(Lead3(ch), Trail(ch >> 6), Trail(ch)) == ch
  {}

  lemma Offsets4(ch: bv32)
    requires ch < 0x200000
    ensures Sum4(Lead4(ch), Trail(ch >> 12), Trail(ch >> 6), Trail(ch)) == ch
  {}

  // The lead and second bytes fall into the rows of Table 3-7.

  lemma TrailIsContinuation(ch: bv32)
    ensures Continuation(Trail(ch))
  {}

  lemma Row2(ch: bv32)
    requires 0x80 <= ch < 0x800
    ensures 0xC2 <= Lead2(ch) <= 0xDF
  {}

  lemma Row3(ch: bv32)
    requires 0x800 <= ch < 0x10000 && Scalar(ch)
    ensures 0xE0 <= Lead3(ch) <= 0xEF
    ensures Lead3(ch) == 0xE0 ==> Trail(ch >> 6) >= 0xA0
    ensures Lead3(ch) == 0xED ==> Trail(ch >> 6) <= 0x9F
  {}

  lemma Row4(ch: bv32)
    requires 0x10000 <= ch <= 0x10FFFF
    ensures 0xF0 <= Lead4(ch) <= 0xF4
    ensures Lead4(ch) == 0xF0 ==> Trail(ch >> 12) >= 0x90
    ensures Lead4(ch) == 0xF4 ==> Trail(ch >> 12) <= 0x8F
  {}

  /** Every encoded scalar value is a row of Table 3-7. */
  lemma Utf8IsWellFormed(ch: bv32)
    requires Scalar(ch)
    ensures Table37(Utf8(ch))
  {
    TrailIsContinuation(ch);
    TrailIsContinuation(ch >> 6);
    TrailIsContinuation(ch >> 12);
    if ch < 0x80 {
      assert (ch & 0x7F) as bv8 <= 0x7F;
    } else if ch < 0x800 {
      Row2(ch);
    } else if ch < 0x10000 {
      Row3(ch);
    } else {
      Row4(ch);
    }
  }

  // ---- what isLegalUTF8 accepts

  /** The sequences accepted beyond Table 3-7: after 0xED and 0xF4 the second byte is only checked
      from above. */
  predicate Stray(s: seq<bv8>) {
    || (|s| == 3 && s[0] == 0xED && s[1] < 0x80 && Continuation(s[2]))
    || (|s| == 4 && s[0] == 0xF4 && s[1] < 0x80 && Continuation(s[2]) && Continuation(s[3]))
  }

  /** `isLegalUTF8` accepts exactly the well-formed sequences and the stray ones. */
  lemma LegalExact(s: seq<bv8>)
    requires s != [] && |s| == TrailingBytes(s[0]) + 1
    ensures IsLegal(s, |s|) <==> Table37(s) || Stray(s)
  {}

  lemma LegalPrefix(s: seq<bv8>, n: nat)
    requires 1 <= n <= |s|
    ensures IsLegal(s, n) <==> IsLegal(s[..n], n)
  {}

  lemma TableLength(s: seq<bv8>)
    requires Table37(s)
    ensures s != [] && TrailingBytes(s[0]) + 1 == |s|
  {}

  lemma Scalar3(a: bv8, b: bv8, c: bv8)
    requires 0xE0 <= a <= 0xEF && b <= 0xBF && LegalSecond(a, b) && Continuation(c)
    ensures Scalar(Sum3(a, b, c))
  {}

  lemma Scalar4(a: bv8, b: bv8, c: bv8, d: bv8)
    requires 0xF0 <= a <= 0xF4 && b <= 0xBF && LegalSecond(a, b) && Continuation(c) && Continuation(d)
    ensures Scalar(Sum4(a, b, c, d))
  {}

  lemma Scalar2(a: bv8, b: bv8)
    requires 0xC2 <= a <= 0xDF && Continuation(b)
    ensures Scalar(Sum2(a, b))
  {}

  /** The value read from the bytes of one character. */
  function Value(s: seq<bv8>): bv32
    requires 1 <= |s| <= 6
  {
    Gather(s, |s| - 1) - Offset(|s| - 1)
  }

  lemma {:induction false} GatherPrefix(s: seq<bv8>, n: nat, extra: nat)
    requires extra < n <= |s|
    ensures Gather(s[..n], extra) == Gather(s, extra)
  {
    if extra > 0 { GatherPrefix(s, n, extra - 1); }
  }

  lemma Gather1(s: seq<bv8>)
    requires |s| >= 2
    ensures Gather(s, 1) == Push(s[0] as bv32, s[1])
  {
    assert Gather(s, 0) == s[0] as bv32;
  }

  lemma Gather2(s: seq<bv8>)
    requires |s| >= 3
    ensures Gather(s, 2) == Push(Push(s[0] as bv32, s[1]), s[2])
  {
    Gather1(s);
  }

  lemma Gather3(s: seq<bv8>)
    requires |s| >= 4
    ensures Gather(s, 3) == Push(Push(Push(s[0] as bv32, s[1]), s[2]), s[3])
  {
    Gather2(s);
  }

  /** Whatever is accepted decodes to a scalar value, so the later surrogate and range tests of the
      UTF-8 readers never fire. */
  lemma LegalIsScalar(s: seq<bv8>, n: nat)
    requires 1 <= n <= |s| && n == TrailingBytes(s[0]) + 1 && IsLegal(s, n)
    ensures Scalar(Value(s[..n]))
    ensures Read8(s) == Character(Value(s[..n]), n)
  {
    GatherPrefix(s, n, n - 1);
    LegalPrefix(s, n);
    LegalValue(s[..n]);
  }

  lemma LegalValue(s: seq<bv8>)
    requires s != [] && |s| == TrailingBytes(s[0]) + 1 && IsLegal(s, |s|)
    ensures Scalar(Value(s))
  {
    if |s| == 1 {
      assert Value(s) == s[0] as bv32;
      assert Scalar(s[0] as bv32);
    } else if |s| == 2 {
      LegalValue2(s);
    } else if |s| == 3 {
      LegalValue3(s);
    } else {
      LegalValue4(s);
    }
  }

  lemma LegalValue2(s: seq<bv8>)
    requires |s| == 2 && 0xC2 <= s[0] <= 0xDF && Continuation(s[1])
    ensures Scalar(Value(s))
  {
    Gather1(s);
    Scalar2(s[0], s[1]);
  }

  lemma LegalValue3(s: seq<bv8>)
    requires |s| == 3 && 0xE0 <= s[0] <= 0xEF && s[1] <= 0xBF && LegalSecond(s[0], s[1]) && Continuation(s[2])
    ensures Scalar(Value(s))
  {
    Value3(s);
    Scalar3(s[0], s[1], s[2]);
  }

  lemma LegalValue4(s: seq<bv8>)
    requires |s| == 4 && 0xF0 <= s[0] <= 0xF4 && s[1] <= 0xBF && LegalSecond(s[0], s[1])
    requires Continuation(s[2]) && Continuation(s[3])
    ensures Scalar(Value(s))
  {
    Value4(s);
    Scalar4(s[0], s[1], s[2], s[3]);
  }

  // ---- re-encoding what was read

  lemma Again2(a: bv8, b: bv8)
    requires 0xC2 <= a <= 0xDF && Continuation(b)
    ensures var ch := Sum2(a, b); 0x80 <= ch < 0x800 && Lead2(ch) == a && Trail(ch) == b
  {}

  lemma Again3(ch: bv32, a: bv8, b: bv8, c: bv8)
    requires 0xE0 <= a <= 0xEF && Continuation(b) && Continuation(c) && (a == 0xE0 ==> b >= 0xA0)
    requires ch == Sum3(a, b, c)
    ensures 0x800 <= ch < 0x10000 && Lead3(ch) == a && Trail(ch >> 6) == b && Trail(ch) == c
  {}

  lemma Again4(ch: bv32, a: bv8, b: bv8, c: bv8, d: bv8)
    requires 0xF0 <= a <= 0xF4 && Continuation(b) && Continuation(c) && Continuation(d) && (a == 0xF0 ==> b >= 0x90)
    requires ch == Sum4(a, b, c, d)
    ensures 0x10000 <= ch && Lead4(ch) == a && Trail(ch >> 12) == b && Trail(ch >> 6) == c && Trail(ch) == d
  {}

  /** Reading a row of Table 3-7 and writing it again gives the same bytes. */
  lemma Reencodes(s: seq<bv8>)
    requires Table37(s)
    ensures Utf8(Value(s)) == s
  {
    if |s| == 1 {
      Reencodes1(s);
    } else if |s| == 2 {
      Reencodes2(s);
    } else if |s| == 3 {
      Reencodes3(s);
    } else {
      Reencodes4(s);
    }
  }

  lemma Reencodes1(s: seq<bv8>)
    requires |s| == 1 && s[0] <= 0x7F
    ensures Utf8(Value(s)) == s
  {
    OneByte(s[0]);
  }

  lemma Reencodes2(s: seq<bv8>)
    requires |s| == 2 && 0xC2 <= s[0] <= 0xDF && Continuation(s[1])
    ensures Utf8(Value(s)) == s
  {
    Gather1(s);
    Reencodes2As(s, Value(s));
  }

  lemma Reencodes2As(s: seq<bv8>, ch: bv32)
    requires |s| == 2 && 0xC2 <= s[0] <= 0xDF && Continuation(s[1]) && ch == Sum2(s[0], s[1])
    ensures Utf8(ch) == s
  {
    Again2(s[0], s[1]);
    assert s == [s[0], s[1]];
  }

  lemma Reencodes3(s: seq<bv8>)
    requires |s| == 3 && Table37(s)
    ensures Utf8(Value(s)) == s
  {
    Value3(s);
    Reencodes3As(s, Value(s));
  }

  lemma Reencodes3As(s: seq<bv8>, ch: bv32)
    requires |s| == 3 && 0xE0 <= s[0] <= 0xEF && Continuation(s[1]) && Continuation(s[2]) && (s[0] == 0xE0 ==> s[1] >= 0xA0)
    requires ch == Sum3(s[0], s[1], s[2])
    ensures Utf8(ch) == s
  {
    Again3(ch, s[0], s[1], s[2]);
    assert s == [s[0], s[1], s[2]];
  }

  lemma Reencodes4(s: seq<bv8>)
    requires |s| == 4 && Table37(s)
    ensures Utf8(Value(s)) == s
  {
    Value4(s);
    Reencodes4As(s, Value(s));
  }

  lemma Reencodes4As(s: seq<bv8>, ch: bv32)
    requires |s| == 4 && 0xF0 <= s[0] <= 0xF4 && (s[0] == 0xF0 ==> s[1] >= 0x90)
    requires Continuation(s[1]) && Continuation(s[2]) && Continuation(s[3])
    requires ch == Sum4(s[0], s[1], s[2], s[3])
    ensures Utf8(ch) == s
  {
    Again4(ch, s[0], s[1], s[2], s[3]);
    Utf8Four(ch, s);
  }

  lemma Value3(s: seq<bv8>)
    requires |s| == 3
    ensures Value(s) == Sum3(s[0], s[1], s[2])
  {
    Gather2(s);
  }

  lemma Value4(s: seq<bv8>)
    requires |s| == 4
    ensures Value(s) == Sum4(s[0], s[1], s[2], s[3])
  {
    Gather3(s);
  }

  lemma Utf8Four(ch: bv32, s: seq<bv8>)
    requires 0x10000 <= ch && |s| == 4
    requires Lead4(ch) == s[0] && Trail(ch >> 12) == s[1] && Trail(ch >> 6) == s[2] && Trail(ch) == s[3]
    ensures Utf8(ch) == s
  {}

  lemma OneByte(a: bv8)
    requires a <= 0x7F
    ensures a as bv32 < 0x80 && (a as bv32 & 0x7F) as bv8 == a
  {}

  lemma Stray3(b: bv8, c: bv8)
    requires b < 0x80 && Continuation(c)
    ensures 0x800 <= Sum3(0xED, b, c) < 0x10000
  {}

  lemma Stray4(b: bv8, c: bv8, d: bv8)
    requires b < 0x80 && Continuation(c) && Continuation(d)
    ensures 0x10000 <= Sum4(0xF4, b, c, d)
  {}

  /** No overlong form is accepted: the shortest form of what was read is as long as what was read,
      even where it is not the same bytes. */
  lemma NeverOverlong(s: seq<bv8>)
    requires s != [] && |s| == TrailingBytes(s[0]) + 1 && IsLegal(s, |s|)
    ensures |Utf8(Value(s))| == |s|
  {
    LegalExact(s);
    if Table37(s) {
      Reencodes(s);
    } else if |s| == 3 {
      Value3(s);
      Stray3(s[1], s[2]);
    } else {
      Value4(s);
      Stray4(s[1], s[2], s[3]);
    }
  }

  /** Reading an encoded character gives the character back, whatever follows it. */
  lemma ReadsUtf8(ch: bv32, rest: seq<bv8>)
    requires Scalar(ch)
    ensures Read8(Utf8(ch) + rest) == Character(ch, |Utf8(ch)|)
  {
    var u := Utf8(ch);
    var s := u + rest;
    Utf8IsWellFormed(ch);
    TableLength(u);
    LegalExact(u);
    assert s[..|u|] == u;
    LegalPrefix(s, |u|);
    LegalIsScalar(s, |u|);
    ValueOfUtf8(ch);
  }

  lemma ValueOfUtf8(ch: bv32)
    requires Scalar(ch)
    ensures Value(Utf8(ch)) == ch
  {
    if ch < 0x80 {
      assert (ch & 0x7F) as bv8 as bv32 == ch;
    } else if ch < 0x800 {
      Gather1(Utf8(ch));
      Offsets2(ch);
    } else if ch < 0x10000 {
      ValueOfThree(ch);
    } else {
      ValueOfFour(ch);
    }
  }

  lemma ValueOfThree(ch: bv32)
    requires 0x800 <= ch < 0x10000
    ensures Value(Utf8(ch)) == ch
  {
    Value3(Utf8(ch));
    Offsets3(ch);
  }

  lemma ValueOfFour(ch: bv32)
    requires 0x10000 <= ch <= 0x10FFFF
    ensures Value(Utf8(ch)) == ch
  {
    Value4(Utf8(ch));
    Offsets4(ch);
  }

  // ---- the tables

  /** The number of trailing bytes is read off the ones that a first byte starts with. */
  lemma TrailingBytesAre(b: bv8)
    ensures TrailingBytes(b) ==
            if b & 0xE0 == 0xC0 then 1
            else if b & 0xF0 == 0xE0 then 2
            else if b & 0xF8 == 0xF0 then 3
            else if b & 0xFC == 0xF8 then 4
            else if b & 0xFC == 0xFC then 5
            else 0
  {}

  /** An offset is what the marks of a first byte and its continuation bytes add up to, each shifted to its place,
      in 32 bits. */
  lemma OffsetsAreMarks()
    ensures Offset(0) == 0
    ensures Offset(1) == (0xC0 << 6) + 0x80
    ensures Offset(2) == (0xE0 << 12) + (0x80 << 6) + 0x80
    ensures Offset(3) == (0xF0 << 18) + (0x80 << 12) + (0x80 << 6) + 0x80
    ensures Offset(4) == (0xF8 << 24) + (0x80 << 18) + (0x80 << 12) + (0x80 << 6) + 0x80
    ensures Offset(5) == (0xFC << 30) + (0x80 << 24) + (0x80 << 18) + (0x80 << 12) + (0x80 << 6) + 0x80
  {}
}
