/** Whole texts through the converters: round trips, exact acceptance, restarting and error positions. */
module TextLaws {
  import opened Conversion
  import opened Unicode
  import opened ConvertUTF
  import opened ConvertUTFLaws

  ghost predicate Text(xs: seq<bv32>) {
    forall x :: x in xs ==> Scalar(x)
  }

  // ---- each converter maps one encoding of a character to the other

  lemma Encodes32to16(ch: bv32, rest: seq<bv32>, flags: Flags)
    requires Scalar(ch)
    ensures Encodes(From32to16(flags), ch, rest, Utf32, Utf16)
  {
    assert From32to16(flags)(Utf32(ch) + rest) == Step32to16([ch] + rest, flags);
    if ch >= 0x10000 { WritesUtf16(ch); }
  }

  lemma Encodes32to8(ch: bv32, rest: seq<bv32>, flags: Flags)
    requires Scalar(ch)
    ensures Encodes(From32to8(flags), ch, rest, Utf32, Utf8)
  {
    assert From32to8(flags)(Utf32(ch) + rest) == Step32to8([ch] + rest, flags);
    WritesUtf8(ch);
  }

  lemma Encodes16to32(ch: bv32, rest: seq<bv16>, flags: Flags)
    requires Scalar(ch)
    ensures Encodes(From16to32(flags), ch, rest, Utf16, Utf32)
  {
    assert From16to32(flags)(Utf16(ch) + rest) == Step16to32(Utf16(ch) + rest, flags);
    ReadsUtf16(ch, rest, flags);
  }

  lemma Encodes16to8(ch: bv32, rest: seq<bv16>, flags: Flags)
    requires Scalar(ch)
    ensures Encodes(From16to8(flags), ch, rest, Utf16, Utf8)
  {
    assert From16to8(flags)(Utf16(ch) + rest) == Step16to8(Utf16(ch) + rest, flags);
    ReadsUtf16(ch, rest, flags);
    WritesUtf8(ch);
  }

  lemma Encodes8to32(ch: bv32, rest: seq<bv8>, flags: Flags)
    requires Scalar(ch)
    ensures Encodes(From8to32(flags), ch, rest, Utf8, Utf32)
  {
    assert From8to32(flags)(Utf8(ch) + rest) == Step8to32(Utf8(ch) + rest, flags);
    ReadsUtf8(ch, rest);
  }

  lemma Encodes8to16(ch: bv32, rest: seq<bv8>, flags: Flags)
    requires Scalar(ch)
    ensures Encodes(From8to16(flags), ch, rest, Utf8, Utf16)
  {
    assert From8to16(flags)(Utf8(ch) + rest) == Step8to16(Utf8(ch) + rest, flags);
    hide Utf8, Utf16, UnitOf, UnitsOf, Read8;
    ReadsUtf8(ch, rest);
    OneUtf8Byte(ch);
    if ch >= 0x10000 { WritesUtf16(ch); } else { WritesOneUnit(ch); }
  }

  lemma OneUtf8Byte(ch: bv32)
    ensures Utf8(ch) != []
  {}

  lemma WritesOneUnit(ch: bv32)
    requires ch < 0x10000
    ensures Utf16(ch) == [UnitOf(ch)]
  {}

  // ---- texts

  lemma {:induction false} Utf32IsItself(xs: seq<bv32>)
    ensures Flat(xs, Utf32) == xs
  {
    if xs != [] {
      Utf32IsItself(xs[1..]);
    }
  }

  /** Every converter, strict or lenient, turns a text in one encoding into the other encoding of as many
      of its characters as there is room for, and then leaves the source at the next character. */
  lemma FillsWithWholeCharacters(xs: seq<bv32>, flags: Flags)
    requires Text(xs)
    ensures Fills(From32to8(flags), xs, Utf32, Utf8) && Fills(From8to32(flags), xs, Utf8, Utf32)
    ensures Fills(From32to16(flags), xs, Utf32, Utf16) && Fills(From16to32(flags), xs, Utf16, Utf32)
    ensures Fills(From16to8(flags), xs, Utf16, Utf8) && Fills(From8to16(flags), xs, Utf8, Utf16)
  {
    hide Fills;
    Fills32to8(xs, flags);
    Fills8to32(xs, flags);
    Fills32to16(xs, flags);
    Fills16to32(xs, flags);
    Fills16to8(xs, flags);
    Fills8to16(xs, flags);
  }

  /** Given room, every converter turns one encoding of a text into the other encoding of the same text.
      Any two conversions can thus be composed: there and back, or the long way round. */
  lemma ConvertsEveryText(xs: seq<bv32>, flags: Flags)
    requires Text(xs)
    ensures Converts(From32to8(flags), xs, Flat(xs, Utf8))
    ensures Converts(From8to32(flags), Flat(xs, Utf8), xs)
    ensures Converts(From32to16(flags), xs, Flat(xs, Utf16))
    ensures Converts(From16to32(flags), Flat(xs, Utf16), xs)
    ensures Converts(From16to8(flags), Flat(xs, Utf16), Flat(xs, Utf8))
    ensures Converts(From8to16(flags), Flat(xs, Utf8), Flat(xs, Utf16))
  {
    hide Fills, Converts;
    Utf32IsItself(xs);
    FillsWithWholeCharacters(xs, flags);
    FillsConverts(From32to8(flags), xs, Utf32, Utf8);
    FillsConverts(From8to32(flags), xs, Utf8, Utf32);
    FillsConverts(From32to16(flags), xs, Utf32, Utf16);
    FillsConverts(From16to32(flags), xs, Utf16, Utf32);
    FillsConverts(From16to8(flags), xs, Utf16, Utf8);
    FillsConverts(From8to16(flags), xs, Utf8, Utf16);
  }

  lemma Fills32to8(xs: seq<bv32>, flags: Flags)
    requires Text(xs)
    ensures Fills(From32to8(flags), xs, Utf32, Utf8)
  {
    Bounded32to8(flags);
    forall x, rest | x in xs ensures Encodes(From32to8(flags), x, rest, Utf32, Utf8) { Encodes32to8(x, rest, flags); }
    RunFills(From32to8(flags), xs, Utf32, Utf8);
  }

  lemma Fills8to32(xs: seq<bv32>, flags: Flags)
    requires Text(xs)
    ensures Fills(From8to32(flags), xs, Utf8, Utf32)
  {
    Bounded8to32(flags);
    forall x, rest | x in xs ensures Encodes(From8to32(flags), x, rest, Utf8, Utf32) { Encodes8to32(x, rest, flags); }
    RunFills(From8to32(flags), xs, Utf8, Utf32);
  }

  lemma Fills32to16(xs: seq<bv32>, flags: Flags)
    requires Text(xs)
    ensures Fills(From32to16(flags), xs, Utf32, Utf16)
  {
    Bounded32to16(flags);
    forall x, rest | x in xs ensures Encodes(From32to16(flags), x, rest, Utf32, Utf16) { Encodes32to16(x, rest, flags); }
    RunFills(From32to16(flags), xs, Utf32, Utf16);
  }

  lemma Fills16to32(xs: seq<bv32>, flags: Flags)
    requires Text(xs)
    ensures Fills(From16to32(flags), xs, Utf16, Utf32)
  {
    Bounded16to32(flags);
    forall x, rest | x in xs ensures Encodes(From16to32(flags), x, rest, Utf16, Utf32) { Encodes16to32(x, rest, flags); }
    RunFills(From16to32(flags), xs, Utf16, Utf32);
  }

  lemma Fills16to8(xs: seq<bv32>, flags: Flags)
    requires Text(xs)
    ensures Fills(From16to8(flags), xs, Utf16, Utf8)
  {
    Bounded16to8(flags);
    forall x, rest | x in xs ensures Encodes(From16to8(flags), x, rest, Utf16, Utf8) { Encodes16to8(x, rest, flags); }
    RunFills(From16to8(flags), xs, Utf16, Utf8);
  }

  lemma Fills8to16(xs: seq<bv32>, flags: Flags)
    requires Text(xs)
    ensures Fills(From8to16(flags), xs, Utf8, Utf16)
  {
    Bounded8to16(flags);
    forall x, rest | x in xs ensures Encodes(From8to16(flags), x, rest, Utf8, Utf16) { Encodes8to16(x, rest, flags); }
    RunFills(From8to16(flags), xs, Utf8, Utf16);
  }

  // ---- well-formed sequences

  /** D92 and D91: a concatenation of the well-formed sequences of single characters. */
  ghost predicate WellFormed8(s: seq<bv8>) {
    exists parts :: AllGood(parts, Table37) && s == Concat(parts)
  }

  ghost predicate WellFormed16(s: seq<bv16>) {
    exists parts :: AllGood(parts, WellFormedUnit16) && s == Concat(parts)
  }

  lemma {:induction false} PartsOfText(xs: seq<bv32>) returns (p8: seq<seq<bv8>>, p16: seq<seq<bv16>>)
    requires Text(xs)
    ensures AllGood(p8, Table37) && Flat(xs, Utf8) == Concat(p8)
    ensures AllGood(p16, WellFormedUnit16) && Flat(xs, Utf16) == Concat(p16)
  {
    if xs == [] {
      return [], [];
    }
    p8, p16 := PartsOfText(xs[1..]);
    Utf8IsWellFormed(xs[0]);
    Utf16IsWellFormed(xs[0]);
    assert ([Utf8(xs[0])] + p8)[1..] == p8 && ([Utf16(xs[0])] + p16)[1..] == p16;
    p8, p16 := [Utf8(xs[0])] + p8, [Utf16(xs[0])] + p16;
  }

  lemma Utf16IsWellFormed(ch: bv32)
    requires Scalar(ch)
    ensures WellFormedUnit16(Utf16(ch))
  {
    if ch < 0x10000 { SingleUnit(ch); } else { PairArithmetic(ch); }
  }

  lemma {:induction false} TextOf8(parts: seq<seq<bv8>>) returns (xs: seq<bv32>)
    requires AllGood(parts, Table37)
    ensures Text(xs) && Flat(xs, Utf8) == Concat(parts)
  {
    if parts == [] {
      return [];
    }
    xs := TextOf8(parts[1..]);
    var p := parts[0];
    TableLength(p);
    LegalExact(p);
    LegalValue(p);
    Reencodes(p);
    assert ([Value(p)] + xs)[1..] == xs;
    xs := [Value(p)] + xs;
  }

  function Value16(p: seq<bv16>): bv32
    requires 1 <= |p| <= 2
  {
    if |p| == 1 then p[0] as bv32 else PairValue(p[0], p[1])
  }

  lemma PairAgain(high: bv16, low: bv16)
    requires 0xD800 <= high <= 0xDBFF && 0xDC00 <= low <= 0xDFFF
    ensures var ch := PairValue(high, low); 0x10000 <= ch <= 0x10FFFF && High(ch) == high && Low(ch) == low
  {}

  lemma SingleAgain(u: bv16)
    requires u < 0xD800 || 0xDFFF < u
    ensures Scalar(u as bv32) && u as bv32 < 0x10000 && (u as bv32 & 0xFFFF) as bv16 == u
  {}

  lemma Reencodes16(p: seq<bv16>)
    requires WellFormedUnit16(p)
    ensures Scalar(Value16(p)) && Utf16(Value16(p)) == p
  {
    if |p| == 1 {
      assert Value16(p) == p[0] as bv32;
      ReencodesSingle(p, p[0]);
    } else {
      assert Value16(p) == PairValue(p[0], p[1]);
      ReencodesPair(p, Value16(p));
    }
  }

  lemma ReencodesSingle(p: seq<bv16>, u: bv16)
    requires p == [u] && (u < 0xD800 || 0xDFFF < u)
    ensures Scalar(u as bv32) && Utf16(u as bv32) == p
  {
    SingleAgain(u);
  }

  lemma ReencodesPair(p: seq<bv16>, ch: bv32)
    requires |p| == 2 && 0xD800 <= p[0] <= 0xDBFF && 0xDC00 <= p[1] <= 0xDFFF && ch == PairValue(p[0], p[1])
    ensures Scalar(ch) && Utf16(ch) == p
  {
    PairAgain(p[0], p[1]);
    assert p == [p[0], p[1]];
  }

  lemma {:induction false} TextOf16(parts: seq<seq<bv16>>) returns (xs: seq<bv32>)
    requires AllGood(parts, WellFormedUnit16)
    ensures Text(xs) && Flat(xs, Utf16) == Concat(parts)
  {
    if parts == [] {
      return [];
    }
    xs := TextOf16(parts[1..]);
    var p := parts[0];
    Reencodes16(p);
    assert ([Value16(p)] + xs)[1..] == xs;
    xs := [Value16(p)] + xs;
  }

  /** The well-formed sequences are exactly the encodings of texts. */
  lemma WellFormedIsText(s8: seq<bv8>, s16: seq<bv16>)
    ensures WellFormed8(s8) <==> exists xs :: Text(xs) && s8 == Flat(xs, Utf8)
    ensures WellFormed16(s16) <==> exists xs :: Text(xs) && s16 == Flat(xs, Utf16)
  {
    if WellFormed8(s8) {
      var parts :| AllGood(parts, Table37) && s8 == Concat(parts);
      var xs := TextOf8(parts);
    }
    if WellFormed16(s16) {
      var parts :| AllGood(parts, WellFormedUnit16) && s16 == Concat(parts);
      var xs := TextOf16(parts);
    }
    forall xs | Text(xs) ensures WellFormed8(Flat(xs, Utf8)) && WellFormed16(Flat(xs, Utf16)) {
      var p8, p16 := PartsOfText(xs);
    }
  }

  // ---- round trips

  /** Well-formed UTF-8 survives UTF-32 and UTF-16 and comes back byte for byte. */
  lemma RoundTrip8(s: seq<bv8>, flags: Flags) returns (x32: seq<bv32>, x16: seq<bv16>)
    requires WellFormed8(s)
    ensures Converts(From8to32(flags), s, x32) && Converts(From32to8(flags), x32, s)
    ensures Converts(From8to16(flags), s, x16) && Converts(From16to8(flags), x16, s)
  {
    WellFormedIsText(s, []);
    x32 :| Text(x32) && s == Flat(x32, Utf8);
    x16 := Flat(x32, Utf16);
    ConvertsEveryText(x32, flags);
  }

  /** Well-formed UTF-16 survives UTF-8 and UTF-32 and comes back unit for unit. */
  lemma RoundTrip16(s: seq<bv16>, flags: Flags) returns (x8: seq<bv8>, x32: seq<bv32>)
    requires WellFormed16(s)
    ensures Converts(From16to8(flags), s, x8) && Converts(From8to16(flags), x8, s)
    ensures Converts(From16to32(flags), s, x32) && Converts(From32to16(flags), x32, s)
  {
    WellFormedIsText([], s);
    x32 :| Text(x32) && s == Flat(x32, Utf16);
    x8 := Flat(x32, Utf8);
    ConvertsEveryText(x32, flags);
  }

  /** The triangle: UTF-32 to UTF-8 directly is UTF-32 to UTF-16 to UTF-8. */
  lemma Triangle(xs: seq<bv32>, flags: Flags) returns (x16: seq<bv16>, x8: seq<bv8>)
    requires Text(xs)
    ensures Converts(From32to16(flags), xs, x16) && Converts(From16to8(flags), x16, x8)
    ensures Converts(From32to8(flags), xs, x8) && Converts(From8to32(flags), x8, xs)
  {
    x16, x8 := Flat(xs, Utf16), Flat(xs, Utf8);
    ConvertsEveryText(xs, flags);
  }
}
