/** Which inputs the UTF-8 and UTF-16 readers accept, where they stop, and how they restart. */
module AcceptanceLaws {
  import opened Conversion
  import opened Unicode
  import opened ConvertUTF
  import opened ConvertUTFLaws
  import opened TextLaws

  // ---- one character of UTF-8: the later surrogate and range branches are dead

  /** The length of the legal sequence at the start of `s`, or 0. */
  function LegalHead(s: seq<bv8>): (n: nat)
    requires s != []
    ensures n <= |s|
  {
    var n := TrailingBytes(s[0]) + 1;
    if n <= |s| && IsLegal(s, n) then n else 0
  }

  function WhyNot(s: seq<bv8>): Result
    requires s != []
  {
    if TrailingBytes(s[0]) + 1 > |s| then SourceExhausted else SourceIllegal
  }

  lemma HeadIsScalar(s: seq<bv8>)
    requires s != [] && LegalHead(s) > 0
    ensures LegalHead(s) <= 4 && Scalar(Value(s[..LegalHead(s)]))
    ensures Read8(s) == Character(Value(s[..LegalHead(s)]), LegalHead(s))
  {
    LegalIsScalar(s, LegalHead(s));
  }

  /** The length table and `isLegalUTF8` alone decide a step of the UTF-8 readers: the surrogate and
      range tests after them never change anything. */
  lemma Step8to32Exact(s: seq<bv8>, flags: Flags)
    requires s != []
    ensures From8to32(flags)(s) ==
            if LegalHead(s) > 0 && LegalHead(s) <= 4 then Take(LegalHead(s), [Value(s[..LegalHead(s)])], 1, false)
            else Halt(WhyNot(s), 0)
  {
    assert From8to32(flags)(s) == Step8to32(s, flags);
    if LegalHead(s) > 0 { HeadIsScalar(s); }
  }

  lemma Step8to16Exact(s: seq<bv8>, flags: Flags)
    requires s != []
    ensures From8to16(flags)(s) ==
            if LegalHead(s) > 0 && LegalHead(s) <= 4 then
              Take(LegalHead(s), Utf16(Value(s[..LegalHead(s)])), |Utf16(Value(s[..LegalHead(s)]))|, false)
            else Halt(WhyNot(s), 0)
  {
    assert From8to16(flags)(s) == Step8to16(s, flags);
    if LegalHead(s) > 0 {
      HeadIsScalar(s);
      var ch := Value(s[..LegalHead(s)]);
      if ch >= 0x10000 { WritesUtf16(ch); }
    }
  }

  // ---- exact acceptance of UTF-8

  predicate Acceptable(p: seq<bv8>) {
    Table37(p) || Stray(p)
  }

  function ValueAs32(p: seq<bv8>): seq<bv32> {
    if 1 <= |p| <= 4 then [Value(p)] else []
  }

  function ValueAs16(p: seq<bv8>): seq<bv16> {
    if 1 <= |p| <= 4 then Utf16(Value(p)) else []
  }

  lemma HeadIsAcceptable(s: seq<bv8>)
    requires s != [] && LegalHead(s) > 0
    ensures Acceptable(s[..LegalHead(s)]) && LegalHead(s) <= 4
  {
    var n := LegalHead(s);
    LegalPrefix(s, n);
    LegalExact(s[..n]);
  }

  lemma AcceptableHead(p: seq<bv8>, rest: seq<bv8>)
    requires Acceptable(p)
    ensures p != [] && |p| <= 4 && LegalHead(p + rest) == |p| && (p + rest)[..|p|] == p
  {
    AcceptableLength(p);
    LegalExact(p);
    assert (p + rest)[..|p|] == p;
    LegalPrefix(p + rest, |p|);
  }

  lemma AcceptableLength(p: seq<bv8>)
    requires Acceptable(p)
    ensures p != [] && TrailingBytes(p[0]) + 1 == |p|
  {
    if Table37(p) { TableLength(p); }
  }

  lemma Takes8to32(s: seq<bv8>, flags: Flags)
    requires s != [] && From8to32(flags)(s).Take? && From8to32(flags)(s).consumed <= |s|
    ensures var o := From8to32(flags)(s);
            Acceptable(s[..o.consumed]) && o.units == ValueAs32(s[..o.consumed]) && !o.illegal
  {
    Step8to32Exact(s, flags);
    HeadIsAcceptable(s);
  }

  lemma Starts8to32(p: seq<bv8>, rest: seq<bv8>, flags: Flags)
    requires Acceptable(p)
    ensures GoodStart(From8to32(flags), p, rest, ValueAs32)
  {
    AcceptableHead(p, rest);
    Step8to32Exact(p + rest, flags);
  }

  lemma Decoder8to32(flags: Flags)
    ensures Decoder(From8to32(flags), Acceptable, ValueAs32)
  {
    Bounded8to32(flags);
    assert TakesGood(From8to32(flags), Acceptable, ValueAs32) by {
      forall s: seq<bv8> | s != [] && From8to32(flags)(s).Take? && From8to32(flags)(s).consumed <= |s|
        ensures var o := From8to32(flags)(s);
                Acceptable(s[..o.consumed]) && o.units == ValueAs32(s[..o.consumed]) && !o.illegal
      {
        Takes8to32(s, flags);
      }
    }
    forall p, rest | Acceptable(p) ensures GoodStart(From8to32(flags), p, rest, ValueAs32) {
      Starts8to32(p, rest, flags);
    }
  }

  lemma Takes8to16(s: seq<bv8>, flags: Flags)
    requires s != [] && From8to16(flags)(s).Take? && From8to16(flags)(s).consumed <= |s|
    ensures var o := From8to16(flags)(s);
            Acceptable(s[..o.consumed]) && o.units == ValueAs16(s[..o.consumed]) && !o.illegal
  {
    Step8to16Exact(s, flags);
    HeadIsAcceptable(s);
  }

  lemma Starts8to16(p: seq<bv8>, rest: seq<bv8>, flags: Flags)
    requires Acceptable(p)
    ensures GoodStart(From8to16(flags), p, rest, ValueAs16)
  {
    AcceptableHead(p, rest);
    Step8to16Exact(p + rest, flags);
  }

  lemma Decoder8to16(flags: Flags)
    ensures Decoder(From8to16(flags), Acceptable, ValueAs16)
  {
    Bounded8to16(flags);
    assert TakesGood(From8to16(flags), Acceptable, ValueAs16) by {
      forall s: seq<bv8> | s != [] && From8to16(flags)(s).Take? && From8to16(flags)(s).consumed <= |s|
        ensures var o := From8to16(flags)(s);
                Acceptable(s[..o.consumed]) && o.units == ValueAs16(s[..o.consumed]) && !o.illegal
      {
        Takes8to16(s, flags);
      }
    }
    forall p, rest | Acceptable(p) ensures GoodStart(From8to16(flags), p, rest, ValueAs16) {
      Starts8to16(p, rest, flags);
    }
  }

  /** UTF-8 is accepted, by either reader, exactly when it splits into rows of Table 3-7 and strays and
      the target has room for their values. */
  lemma AcceptsExactly8to32(s: seq<bv8>, room: nat, flags: Flags)
    ensures Converter(From8to32(flags))
    ensures Run(From8to32(flags), s, room).result == ConversionOK
       <==> exists parts :: AllGood(parts, Acceptable) && s == Concat(parts) && |Values(parts, ValueAs32)| <= room
  {
    Decoder8to32(flags);
    AcceptsExactly(From8to32(flags), Acceptable, ValueAs32, s, room);
  }

  lemma AcceptsExactly8to16(s: seq<bv8>, room: nat, flags: Flags)
    ensures Converter(From8to16(flags))
    ensures Run(From8to16(flags), s, room).result == ConversionOK
       <==> exists parts :: AllGood(parts, Acceptable) && s == Concat(parts) && |Values(parts, ValueAs16)| <= room
  {
    Decoder8to16(flags);
    AcceptsExactly(From8to16(flags), Acceptable, ValueAs16, s, room);
  }

  lemma {:induction false} AcceptedIsText(parts: seq<seq<bv8>>)
    requires AllGood(parts, Acceptable)
    ensures Text(Values(parts, ValueAs32))
  {
    if parts != [] {
      AcceptedIsText(parts[1..]);
      AcceptableLength(parts[0]);
      LegalExact(parts[0]);
      LegalValue(parts[0]);
    }
  }

  lemma AcceptedOutput(s: seq<bv8>, room: nat, flags: Flags)
    requires Converter(From8to32(flags)) && Run(From8to32(flags), s, room).result == ConversionOK
    ensures Text(Run(From8to32(flags), s, room).out)
  {
    Decoder8to32(flags);
    RunComplete(From8to32(flags), s, room);
    var parts := ConvertedIsGood(From8to32(flags), Acceptable, ValueAs32, s);
    AcceptedIsText(parts);
  }

  /** An accepted byte string comes back unchanged from UTF-32 exactly when it is well-formed. */
  lemma RoundTripExactly8(s: seq<bv8>, room: nat, flags: Flags)
    requires Converter(From8to32(flags)) && Run(From8to32(flags), s, room).result == ConversionOK
    ensures Text(Run(From8to32(flags), s, room).out)
    ensures Converts(From32to8(flags), Run(From8to32(flags), s, room).out, s) <==> WellFormed8(s)
  {
    hide Run, Converts, WellFormed8;
    AcceptedOutput(s, room, flags);
    var out := Run(From8to32(flags), s, room).out;
    if WellFormed8(s) {
      var xs, _ := RoundTrip8(s, flags);
      ConvertsOnly(From8to32(flags), s, xs, room);
    }
    WrittenIsWellFormed(out, s, flags);
  }

  lemma WrittenIsWellFormed(xs: seq<bv32>, s: seq<bv8>, flags: Flags)
    requires Text(xs)
    ensures Converts(From32to8(flags), xs, s) ==> WellFormed8(s)
  {
    hide Converts, WellFormed8, Flat;
    ConvertsEveryText(xs, flags);
    if Converts(From32to8(flags), xs, s) {
      ConvertsOnce(From32to8(flags), xs, s, Flat(xs, Utf8));
      WellFormedIsText(s, []);
    }
  }

  lemma StrayPrefix(p: seq<bv8>, q: seq<bv8>)
    requires Stray(p) && q <= p
    ensures !Table37(q)
  {}

  /** Every stray sequence is accepted, and none is well-formed. */
  lemma StraysAreIllFormed(p: seq<bv8>)
    requires Stray(p)
    ensures Acceptable(p) && !WellFormed8(p)
  {
    forall parts | p == Concat(parts) ensures !AllGood(parts, Table37) {
      assert parts[0] in parts && parts[0] <= p;
      StrayPrefix(p, parts[0]);
    }
  }

  // ---- exact acceptance of UTF-16

  function UnitValue(p: seq<bv16>): seq<bv32> {
    if 1 <= |p| <= 2 then [Value16(p)] else []
  }

  lemma Takes16(s: seq<bv16>)
    requires s != [] && From16to32(Strict)(s).Take? && From16to32(Strict)(s).consumed <= |s|
    ensures var o := From16to32(Strict)(s);
            WellFormedUnit16(s[..o.consumed]) && o.units == UnitValue(s[..o.consumed]) && !o.illegal
  {
    assert From16to32(Strict)(s) == Step16to32(s, Strict);
  }

  lemma Starts16(p: seq<bv16>, rest: seq<bv16>)
    requires WellFormedUnit16(p)
    ensures GoodStart(From16to32(Strict), p, rest, UnitValue)
  {
    assert From16to32(Strict)(p + rest) == Step16to32(p + rest, Strict);
    UnitStep(p + rest, p, Value16(p));
  }

  lemma UnitStep(s: seq<bv16>, p: seq<bv16>, ch: bv32)
    requires WellFormedUnit16(p) && p <= s && ch == Value16(p)
    ensures Step16to32(s, Strict) == Take(|p|, [ch], 1, false)
  {
    if |p| == 1 { ReadsSingle(s, ch, Strict); } else { ReadsPair(s, Strict); }
  }

  lemma Decoder16to32()
    ensures Decoder(From16to32(Strict), WellFormedUnit16, UnitValue)
  {
    Bounded16to32(Strict);
    assert TakesGood(From16to32(Strict), WellFormedUnit16, UnitValue) by {
      forall s: seq<bv16> | s != [] && From16to32(Strict)(s).Take? && From16to32(Strict)(s).consumed <= |s|
        ensures var o := From16to32(Strict)(s);
                WellFormedUnit16(s[..o.consumed]) && o.units == UnitValue(s[..o.consumed]) && !o.illegal
      {
        Takes16(s);
      }
    }
    forall p, rest | WellFormedUnit16(p) ensures GoodStart(From16to32(Strict), p, rest, UnitValue) {
      Starts16(p, rest);
    }
  }

  function UnitBytes(p: seq<bv16>): seq<bv8> {
    if 1 <= |p| <= 2 then Utf8(Value16(p)) else []
  }

  /** The two readers of UTF-16 agree about what a character is. */
  lemma SameCharacters(s: seq<bv16>, flags: Flags)
    requires s != []
    ensures var o, p := From16to32(flags)(s), From16to8(flags)(s);
            && (p.Take? <==> o.Take?)
            && (o.Halt? ==> p == Halt(o.result, 0) && o.need == 0)
            && (o.Take? ==> |o.units| == 1 && p.consumed == o.consumed && !p.illegal && !o.illegal)
            && (o.Take? && o.units[0] <= 0x10FFFF ==> p.units == Utf8(o.units[0]))
  {
    hide Read16, Utf8, WrittenBytes;
    assert From16to32(flags)(s) == Step16to32(s, flags) && From16to8(flags)(s) == Step16to8(s, flags);
    var c := Read16(s, flags);
    if c.Character? && c.ch <= 0x10FFFF {
      WritesUtf8(c.ch);
    }
  }

  lemma Takes16to8(s: seq<bv16>)
    requires s != [] && From16to8(Strict)(s).Take? && From16to8(Strict)(s).consumed <= |s|
    ensures var o := From16to8(Strict)(s);
            WellFormedUnit16(s[..o.consumed]) && o.units == UnitBytes(s[..o.consumed]) && !o.illegal
  {
    hide Utf8, Value16;
    SameCharacters(s, Strict);
    Takes16(s);
    Reencodes16(s[..From16to8(Strict)(s).consumed]);
  }

  lemma Starts16to8(p: seq<bv16>, rest: seq<bv16>)
    requires WellFormedUnit16(p)
    ensures GoodStart(From16to8(Strict), p, rest, UnitBytes)
  {
    hide Utf8, Value16;
    SameCharacters(p + rest, Strict);
    Starts16(p, rest);
    Reencodes16(p);
  }

  lemma Decoder16to8()
    ensures Decoder(From16to8(Strict), WellFormedUnit16, UnitBytes)
  {
    Bounded16to8(Strict);
    assert TakesGood(From16to8(Strict), WellFormedUnit16, UnitBytes) by {
      forall s: seq<bv16> | s != [] && From16to8(Strict)(s).Take? && From16to8(Strict)(s).consumed <= |s|
        ensures var o := From16to8(Strict)(s);
                WellFormedUnit16(s[..o.consumed]) && o.units == UnitBytes(s[..o.consumed]) && !o.illegal
      {
        Takes16to8(s);
      }
    }
    forall p, rest | WellFormedUnit16(p) ensures GoodStart(From16to8(Strict), p, rest, UnitBytes) {
      Starts16to8(p, rest);
    }
  }

  /** Strict UTF-16 is accepted exactly when it is well-formed and the target has room for its values. */
  lemma AcceptsExactly16to8(s: seq<bv16>, room: nat)
    ensures Converter(From16to8(Strict))
    ensures Run(From16to8(Strict), s, room).result == ConversionOK
       <==> exists parts :: AllGood(parts, WellFormedUnit16) && s == Concat(parts) && |Values(parts, UnitBytes)| <= room
  {
    Decoder16to8();
    AcceptsExactly(From16to8(Strict), WellFormedUnit16, UnitBytes, s, room);
  }

  lemma AcceptsExactly16to32(s: seq<bv16>, room: nat)
    ensures Converter(From16to32(Strict))
    ensures Run(From16to32(Strict), s, room).result == ConversionOK
       <==> exists parts :: AllGood(parts, WellFormedUnit16) && s == Concat(parts) && |Values(parts, UnitValue)| <= room
  {
    Decoder16to32();
    AcceptsExactly(From16to32(Strict), WellFormedUnit16, UnitValue, s, room);
  }

  // ---- restarting: as many buffers as wanted, each with room for one encoded character

  lemma Never16to32(flags: Flags)
    ensures NeverIllegal(From16to32(flags))
  {
    forall s: seq<bv16> | s != [] && From16to32(flags)(s).Take? ensures !From16to32(flags)(s).illegal {
      assert From16to32(flags)(s) == Step16to32(s, flags);
    }
  }

  lemma Never16to8(flags: Flags)
    ensures NeverIllegal(From16to8(flags))
  {
    forall s: seq<bv16> | s != [] && From16to8(flags)(s).Take? ensures !From16to8(flags)(s).illegal {
      assert From16to8(flags)(s) == Step16to8(s, flags);
    }
  }

  lemma Never8to16(flags: Flags)
    ensures NeverIllegal(From8to16(flags))
  {
    forall s: seq<bv8> | s != [] && From8to16(flags)(s).Take? ensures !From8to16(flags)(s).illegal {
      Step8to16Exact(s, flags);
    }
  }

  lemma Never8to32(flags: Flags)
    ensures NeverIllegal(From8to32(flags))
  {
    forall s: seq<bv8> | s != [] && From8to32(flags)(s).Take? ensures !From8to32(flags)(s).illegal {
      Step8to32Exact(s, flags);
    }
  }

  /** From UTF-16 and UTF-8, on any input and with either flag, resuming ends as one call does. */
  lemma Restarts16to32(s: seq<bv16>, rooms: seq<nat>, flags: Flags)
    requires Enough(s, rooms, 1)
    ensures RestartsAlike(From16to32(flags), s, rooms)
  {
    Bounded16to32(flags);
    Never16to32(flags);
    NeverIllegalRestarts(From16to32(flags), s, rooms, 1);
  }

  lemma Restarts16to8(s: seq<bv16>, rooms: seq<nat>, flags: Flags)
    requires Enough(s, rooms, 4)
    ensures RestartsAlike(From16to8(flags), s, rooms)
  {
    Bounded16to8(flags);
    Never16to8(flags);
    NeverIllegalRestarts(From16to8(flags), s, rooms, 4);
  }

  lemma Restarts8to16(s: seq<bv8>, rooms: seq<nat>, flags: Flags)
    requires Enough(s, rooms, 2)
    ensures RestartsAlike(From8to16(flags), s, rooms)
  {
    Bounded8to16(flags);
    Never8to16(flags);
    NeverIllegalRestarts(From8to16(flags), s, rooms, 2);
  }

  lemma Restarts8to32(s: seq<bv8>, rooms: seq<nat>, flags: Flags)
    requires Enough(s, rooms, 1)
    ensures RestartsAlike(From8to32(flags), s, rooms)
  {
    Bounded8to32(flags);
    Never8to32(flags);
    NeverIllegalRestarts(From8to32(flags), s, rooms, 1);
  }

  /** The values above the last code point that are passed over with a mark, and those refused. */
  function TooBig(passedOver: bool): bv32 -> bool {
    x => passedOver && x > 0x10FFFF
  }

  function Refused(flags: Flags): bv32 -> bool {
    x => flags.Strict? && Surrogate(x)
  }

  lemma OneByOne32to8(flags: Flags)
    ensures OneByOne(From32to8(flags), TooBig(true), Refused(flags))
  {
    forall s: seq<bv32> | s != []
      ensures var o := From32to8(flags)(s);
              && (o.Halt? <==> Refused(flags)(s[0]))
              && (o.Take? ==> o.consumed == 1 && (o.illegal <==> TooBig(true)(s[0])))
    {
      assert From32to8(flags)(s) == Step32to8(s, flags);
    }
  }

  lemma OneByOne32to16(flags: Flags)
    ensures OneByOne(From32to16(flags), TooBig(flags.Strict?), Refused(flags))
  {
    forall s: seq<bv32> | s != []
      ensures var o := From32to16(flags)(s);
              && (o.Halt? <==> Refused(flags)(s[0]))
              && (o.Take? ==> o.consumed == 1 && (o.illegal <==> TooBig(flags.Strict?)(s[0])))
    {
      assert From32to16(flags)(s) == Step32to16(s, flags);
    }
  }

  /** From UTF-32 the result is another one exactly when a value above 0x10FFFF lies before the start of
      the last call, and from there on neither another one nor, if strict, a surrogate. */
  lemma Restarts32to8(s: seq<bv32>, rooms: seq<nat>, flags: Flags)
    requires Enough(s, rooms, 4)
    ensures RestartsUnlessForgotten(From32to8(flags), s, rooms, TooBig(true), Refused(flags))
  {
    Bounded32to8(flags);
    OneByOne32to8(flags);
    OneByOneRestarts(From32to8(flags), s, rooms, 4, TooBig(true), Refused(flags));
  }

  /** To UTF-16 such a value is passed over by a strict conversion only: a lenient one replaces it. */
  lemma Restarts32to16(s: seq<bv32>, rooms: seq<nat>, flags: Flags)
    requires Enough(s, rooms, 2)
    ensures RestartsUnlessForgotten(From32to16(flags), s, rooms, TooBig(flags.Strict?), Refused(flags))
  {
    Bounded32to16(flags);
    OneByOne32to16(flags);
    OneByOneRestarts(From32to16(flags), s, rooms, 2, TooBig(flags.Strict?), Refused(flags));
  }

  /** Such sources: one call reports the illegal value, resuming ends with conversionOK. */
  lemma IllegalIsForgotten8()
    ensures Converter(From32to8(Lenient))
    ensures var step, s := From32to8(Lenient), [0x110000, 0x41, 0x42];
            && Run(step, s, 6).result == SourceIllegal
            && Run(step, s, 4).result == TargetExhausted && Run(step, s, 4).consumed == 2
            && Run(step, [0x42], 4).result == ConversionOK
  {
    hide Run, Converter, WrittenBytes;
    Bounded32to8(Lenient);
    var step := From32to8(Lenient);
    var a, b, c := step([0x110000, 0x41, 0x42]), step([0x41, 0x42]), step([0x42]);
    assert a == Take(1, WrittenBytes(REPLACEMENT, 3), 3, true);
    assert b == Take(1, WrittenBytes(0x41, 1), 1, false);
    assert c == Take(1, WrittenBytes(0x42, 1), 1, false);
    FirstIsForgotten(step, 0x110000, 0x41, 0x42, a, b, c, 4);
  }

  lemma IllegalIsForgotten16()
    ensures Converter(From32to16(Strict))
    ensures var step, s := From32to16(Strict), [0x110000, 0x41, 0x10000];
            && Run(step, s, 4).result == SourceIllegal
            && Run(step, s, 2).result == TargetExhausted && Run(step, s, 2).consumed == 2
            && Run(step, [0x10000], 2).result == ConversionOK
  {
    hide Run, Converter, UnitOf, UnitsOf;
    Bounded32to16(Strict);
    var step := From32to16(Strict);
    var a, b, c := step([0x110000, 0x41, 0x10000]), step([0x41, 0x10000]), step([0x10000]);
    assert a == Take(1, [], 1, true);
    assert b == Take(1, [UnitOf(0x41)], 1, false);
    assert c == Take(1, UnitsOf(0x10000), 2, false);
    FirstIsForgotten(step, 0x110000, 0x41, 0x10000, a, b, c, 2);
  }

  // ---- texts in pieces

  lemma NothingTooBig(xs: seq<bv32>, flag: bool)
    requires Text(xs)
    ensures !Any(xs, TooBig(flag))
  {
    forall i | 0 <= i < |xs| ensures !TooBig(flag)(xs[i]) { assert Scalar(xs[i]); }
  }

  /** Every converter turns a text into its other encoding piece by piece as well, and says so. */
  lemma TextInPieces32and8(xs: seq<bv32>, flags: Flags)
    requires Text(xs)
    ensures Delivers(From32to8(flags), xs, Flat(xs, Utf8), 4)
    ensures Delivers(From8to32(flags), Flat(xs, Utf8), xs, 1)
  {
    hide Converts, Delivers, Converter, HaltsForSource, HaltsWithError, NeverIllegal, OneByOne, Any, Text, Flat;
    ConvertsEveryText(xs, flags);
    NothingTooBig(xs, true);
    Bounded32to8(flags);
    OneByOne32to8(flags);
    OneByOneDelivers(From32to8(flags), xs, Flat(xs, Utf8), 4, TooBig(true), Refused(flags));
    Bounded8to32(flags);
    Never8to32(flags);
    NeverIllegalDelivers(From8to32(flags), Flat(xs, Utf8), xs, 1);
  }

  lemma TextInPieces32and16(xs: seq<bv32>, flags: Flags)
    requires Text(xs)
    ensures Delivers(From32to16(flags), xs, Flat(xs, Utf16), 2)
    ensures Delivers(From16to32(flags), Flat(xs, Utf16), xs, 1)
  {
    hide Converts, Delivers, Converter, HaltsForSource, HaltsWithError, NeverIllegal, OneByOne, Any, Text, Flat;
    ConvertsEveryText(xs, flags);
    NothingTooBig(xs, flags.Strict?);
    Bounded32to16(flags);
    OneByOne32to16(flags);
    OneByOneDelivers(From32to16(flags), xs, Flat(xs, Utf16), 2, TooBig(flags.Strict?), Refused(flags));
    Bounded16to32(flags);
    Never16to32(flags);
    NeverIllegalDelivers(From16to32(flags), Flat(xs, Utf16), xs, 1);
  }

  lemma TextInPieces16and8(xs: seq<bv32>, flags: Flags)
    requires Text(xs)
    ensures Delivers(From16to8(flags), Flat(xs, Utf16), Flat(xs, Utf8), 4)
    ensures Delivers(From8to16(flags), Flat(xs, Utf8), Flat(xs, Utf16), 2)
  {
    hide Converts, Delivers, Converter, HaltsForSource, HaltsWithError, NeverIllegal, Text, Flat;
    ConvertsEveryText(xs, flags);
    Bounded16to8(flags);
    Never16to8(flags);
    NeverIllegalDelivers(From16to8(flags), Flat(xs, Utf16), Flat(xs, Utf8), 4);
    Bounded8to16(flags);
    Never8to16(flags);
    NeverIllegalDelivers(From8to16(flags), Flat(xs, Utf8), Flat(xs, Utf16), 2);
  }

  // ---- where the readers stop

  /** On a malformed or cut-off sequence the source is left at its first byte, on a full target at the
      next whole character; everything before is converted, and nothing else is written. */
  lemma StopsAtOffendingByte8to32(s: seq<bv8>, room: nat, flags: Flags)
    ensures Converter(From8to32(flags)) && Run(From8to32(flags), s, room).consumed <= |s|
    ensures var a := Run(From8to32(flags), s, room);
            && Converts(From8to32(flags), s[..a.consumed], a.out)
            && a.result == if a.consumed == |s| then ConversionOK
                           else if LegalHead(s[a.consumed..]) > 0 then TargetExhausted
                           else WhyNot(s[a.consumed..])
  {
    Decoder8to32(flags);
    ConsumedIsConverted(From8to32(flags), Acceptable, ValueAs32, s, room);
    Never8to32(flags);
    StopsAtCause(From8to32(flags), s, room);
    var a := Run(From8to32(flags), s, room);
    ConvertsIsWhole(From8to32(flags), s[..a.consumed], a.out);
    if a.consumed < |s| {
      var rest := s[a.consumed..];
      Step8to32Exact(rest, flags);
      if LegalHead(rest) > 0 { HeadIsAcceptable(rest); }
    }
  }

  lemma StopsAtOffendingByte8to16(s: seq<bv8>, room: nat, flags: Flags)
    ensures Converter(From8to16(flags)) && Run(From8to16(flags), s, room).consumed <= |s|
    ensures var a := Run(From8to16(flags), s, room);
            && Converts(From8to16(flags), s[..a.consumed], a.out)
            && a.result == if a.consumed == |s| then ConversionOK
                           else if LegalHead(s[a.consumed..]) > 0 then TargetExhausted
                           else WhyNot(s[a.consumed..])
  {
    Decoder8to16(flags);
    ConsumedIsConverted(From8to16(flags), Acceptable, ValueAs16, s, room);
    Never8to16(flags);
    StopsAtCause(From8to16(flags), s, room);
    var a := Run(From8to16(flags), s, room);
    ConvertsIsWhole(From8to16(flags), s[..a.consumed], a.out);
    if a.consumed < |s| {
      var rest := s[a.consumed..];
      Step8to16Exact(rest, flags);
      if LegalHead(rest) > 0 { HeadIsAcceptable(rest); }
    }
  }

  /** The length of the well-formed units at the start of `s`, or 0. */
  function UnitHead(s: seq<bv16>): (n: nat)
    requires s != []
    ensures n <= |s| && (n > 0 <==> WellFormedUnit16(s[..n]))
  {
    if IsHigh(s[0]) then if |s| > 1 && IsLow(s[1]) then 2 else 0 else if IsLow(s[0]) then 0 else 1
  }

  /** A high surrogate at the end of the source may have its other half still to come. */
  function WhyNot16(s: seq<bv16>): Result
    requires s != []
  {
    if IsHigh(s[0]) && |s| == 1 then SourceExhausted else SourceIllegal
  }

  lemma Step16Exact(s: seq<bv16>)
    requires s != []
    ensures From16to32(Strict)(s).Take? <==> UnitHead(s) > 0
    ensures UnitHead(s) == 0 ==> From16to32(Strict)(s) == Halt(WhyNot16(s), 0)
  {
    assert From16to32(Strict)(s) == Step16to32(s, Strict);
  }

  /** A strict reader of UTF-16 leaves the source at an unpaired surrogate, or at the next whole character
      when the target is full; everything before is converted, and nothing else is written. */
  lemma StopsAtOffendingUnit16to32(s: seq<bv16>, room: nat)
    ensures Converter(From16to32(Strict)) && Run(From16to32(Strict), s, room).consumed <= |s|
    ensures var a := Run(From16to32(Strict), s, room);
            && Converts(From16to32(Strict), s[..a.consumed], a.out)
            && a.result == if a.consumed == |s| then ConversionOK
                           else if UnitHead(s[a.consumed..]) > 0 then TargetExhausted
                           else WhyNot16(s[a.consumed..])
  {
    hide UnitHead;
    Decoder16to32();
    Never16to32(Strict);
    ConsumedIsConverted(From16to32(Strict), WellFormedUnit16, UnitValue, s, room);
    StopsAtCause(From16to32(Strict), s, room);
    var a := Run(From16to32(Strict), s, room);
    ConvertsIsWhole(From16to32(Strict), s[..a.consumed], a.out);
    if a.consumed < |s| { Step16Exact(s[a.consumed..]); }
  }

  lemma StopsAtOffendingUnit16to8(s: seq<bv16>, room: nat)
    ensures Converter(From16to8(Strict)) && Run(From16to8(Strict), s, room).consumed <= |s|
    ensures var a := Run(From16to8(Strict), s, room);
            && Converts(From16to8(Strict), s[..a.consumed], a.out)
            && a.result == if a.consumed == |s| then ConversionOK
                           else if UnitHead(s[a.consumed..]) > 0 then TargetExhausted
                           else WhyNot16(s[a.consumed..])
  {
    hide UnitHead, Utf8;
    Decoder16to8();
    Never16to8(Strict);
    ConsumedIsConverted(From16to8(Strict), WellFormedUnit16, UnitBytes, s, room);
    StopsAtCause(From16to8(Strict), s, room);
    var a := Run(From16to8(Strict), s, room);
    ConvertsIsWhole(From16to8(Strict), s[..a.consumed], a.out);
    if a.consumed < |s| {
      Step16Exact(s[a.consumed..]);
      SameCharacters(s[a.consumed..], Strict);
    }
  }

  // ---- lenient UTF-16

  predicate EndsHigh(s: seq<bv16>) {
    s != [] && IsHigh(s[|s| - 1])
  }

  lemma LenientStep(s: seq<bv16>)
    requires s != []
    ensures var o := From16to32(Lenient)(s);
            && (o.Halt? <==> |s| == 1 && IsHigh(s[0])) && (o.Halt? ==> o.result == SourceExhausted)
            && (o.Take? ==> 1 <= o.consumed <= |s| && (EndsHigh(s) <==> EndsHigh(s[o.consumed..])))
  {
    assert From16to32(Lenient)(s) == Step16to32(s, Lenient);
    LowIsNotHigh(s);
  }

  lemma LowIsNotHigh(s: seq<bv16>)
    ensures |s| >= 2 && IsLow(s[1]) ==> !IsHigh(s[1])
  {}

  lemma {:induction false} LenientAccepts<T(!new)>(step: seq<bv16> -> Outcome<T>, s: seq<bv16>)
    requires Converter(step) && HaltsWithError(step)
    requires forall t: seq<bv16> :: t != [] ==> (step(t).Take? <==> From16to32(Lenient)(t).Take?)
    requires forall t: seq<bv16> :: t != [] && step(t).Take? ==> !step(t).illegal && step(t).consumed == From16to32(Lenient)(t).consumed
    ensures RunAll(step, s).result == ConversionOK <==> !EndsHigh(s)
    decreases |s|
  {
    hide HaltsWithError, EndsHigh;
    if s == [] {
      assert !EndsHigh(s) by { NothingEndsHigh(s); }
    } else {
      LenientStep(s);
      if step(s).Take? {
        LenientAccepts(step, s[step(s).consumed..]);
      } else {
        HaltIsError(step, s);
        LoneHigh(s);
      }
    }
  }

  lemma NothingEndsHigh(s: seq<bv16>)
    ensures s == [] ==> !EndsHigh(s)
  {}

  lemma LoneHigh(s: seq<bv16>)
    requires |s| == 1 && IsHigh(s[0])
    ensures EndsHigh(s)
  {}

  lemma HaltIsError<S(!new), T(!new)>(step: seq<S> -> Outcome<T>, s: seq<S>)
    requires Converter(step) && HaltsWithError(step) && s != [] && step(s).Halt?
    ensures RunAll(step, s).result != ConversionOK
  {}

  /** A lenient reader of UTF-16 accepts all of its input exactly when that does not end in a high
      surrogate and there is room for what it writes. */
  lemma AcceptsLenient16to32(s: seq<bv16>, room: nat)
    ensures Converter(From16to32(Lenient))
    ensures Run(From16to32(Lenient), s, room).result == ConversionOK
       <==> !EndsHigh(s) && |RunAll(From16to32(Lenient), s).out| <= room
  {
    Bounded16to32(Lenient);
    Never16to32(Lenient);
    AcceptsWithRoom(From16to32(Lenient), s, room);
    LenientAccepts(From16to32(Lenient), s);
  }

  lemma AcceptsLenient16to8(s: seq<bv16>, room: nat)
    ensures Converter(From16to8(Lenient))
    ensures Run(From16to8(Lenient), s, room).result == ConversionOK
       <==> !EndsHigh(s) && |RunAll(From16to8(Lenient), s).out| <= room
  {
    Bounded16to8(Lenient);
    Never16to8(Lenient);
    AcceptsWithRoom(From16to8(Lenient), s, room);
    forall t: seq<bv16> | t != []
      ensures From16to8(Lenient)(t).Take? <==> From16to32(Lenient)(t).Take?
      ensures From16to8(Lenient)(t).Take? ==> From16to8(Lenient)(t).consumed == From16to32(Lenient)(t).consumed
    {
      SameCharacters(t, Lenient);
    }
    LenientAccepts(From16to8(Lenient), s);
  }
}
