/** What each converter of ConvertUTF.c does with the next character of its source. */
module ConvertUTF {
  import opened Conversion
  import opened Unicode

  datatype Flags = Strict | Lenient

  const REPLACEMENT: bv32 := 0xFFFD

  /** The number of bytes a value is written with. */
  function BytesToWrite(ch: bv32): nat {
    if ch < 0x80 then 1 else if ch < 0x800 then 2 else if ch < 0x10000 then 3 else if ch < 0x110000 then 4 else 3
  }

  function FirstByteMark(n: nat): bv32
    requires 1 <= n <= 4
  {
    if n == 1 then 0x00 else if n == 2 then 0xC0 else if n == 3 then 0xE0 else 0xF0
  }

  /** The last `k` bytes of the fall-through switch, written back to front. */
  function TrailingByte(ch: bv32): bv8 {
    ((ch | 0x80) & 0xBF & 0xFF) as bv8
  }

  function FirstByte(ch: bv32, n: nat): bv8
    requires 1 <= n <= 4
  {
    ((ch | FirstByteMark(n)) & 0xFF) as bv8
  }

  function WrittenBytes(ch: bv32, n: nat): (bytes: seq<bv8>)
    requires 1 <= n <= 4
    ensures |bytes| == n
  {
    match n
    case 1 => [FirstByte(ch, 1)]
    case 2 => [FirstByte(ch >> 6, 2), TrailingByte(ch)]
    case 3 => [FirstByte(ch >> 6 >> 6, 3), TrailingByte(ch >> 6), TrailingByte(ch)]
    case 4 => [FirstByte(ch >> 6 >> 6 >> 6, 4), TrailingByte(ch >> 6 >> 6), TrailingByte(ch >> 6), TrailingByte(ch)]
  }

  /** A value of the basic plane as one unit. */
  function UnitOf(ch: bv32): bv16 {
    (ch & 0xFFFF) as bv16
  }

  /** A value above the basic plane as a surrogate pair. */
  function UnitsOf(ch: bv32): (units: seq<bv16>)
    ensures |units| == 2
  {
    [((((ch - 0x10000) >> 10) + 0xD800) & 0xFFFF) as bv16, ((((ch - 0x10000) & 0x3FF) + 0xDC00) & 0xFFFF) as bv16]
  }

  /** One character read from the source, or the reason it could not be. */
  datatype Character = Character(ch: bv32, units: nat) | Unreadable(result: Result)

  // ---- reading UTF-16

  function PairValue(high: bv16, low: bv16): bv32 {
    ((high as bv32 - 0xD800) << 10) + (low as bv32 - 0xDC00) + 0x10000
  }

  predicate IsHigh(unit: bv16) {
    0xD800 <= unit <= 0xDBFF
  }

  predicate IsLow(unit: bv16) {
    0xDC00 <= unit <= 0xDFFF
  }

  function Read16(s: seq<bv16>, flags: Flags): Character
    requires s != []
  {
    if IsHigh(s[0]) then
      if |s| > 1 then
        if IsLow(s[1]) then Character(PairValue(s[0], s[1]), 2)
        else if flags.Strict? then Unreadable(SourceIllegal)
        else Character(s[0] as bv32, 1)
      else Unreadable(SourceExhausted)
    else if flags.Strict? && IsLow(s[0]) then Unreadable(SourceIllegal)
    else Character(s[0] as bv32, 1)
  }

  // ---- reading UTF-8

  /** `trailingBytesForUTF8`. */
  function TrailingBytes(b: bv8): nat {
    if b < 0xC0 then 0 else if b < 0xE0 then 1 else if b < 0xF0 then 2
    else if b < 0xF8 then 3 else if b < 0xFC then 4 else 5
  }

  /** `offsetsFromUTF8`. */
  function Offset(extra: nat): bv32
    requires extra <= 5
  {
    match extra
    case 0 => 0x00000000
    case 1 => 0x00003080
    case 2 => 0x000E2080
    case 3 => 0x03C82080
    case 4 => 0xFA082080
    case 5 => 0x82082080
  }

  /** `isLegalUTF8` on the first `length` bytes, with its fall-through cases. */
  predicate IsLegal(s: seq<bv8>, length: nat)
    requires 1 <= length <= |s|
  {
    && length <= 4
    && (length >= 4 ==> Continuation(s[3]))
    && (length >= 3 ==> Continuation(s[2]))
    && (length >= 2 ==> s[1] <= 0xBF && LegalSecond(s[0], s[1]))
    && !(0x80 <= s[0] < 0xC2)
    && s[0] <= 0xF4
  }

  /** The inner switch of `isLegalUTF8`. */
  predicate LegalSecond(first: bv8, a: bv8) {
    if first == 0xE0 then a >= 0xA0
    else if first == 0xED then a <= 0x9F
    else if first == 0xF0 then a >= 0x90
    else if first == 0xF4 then a <= 0x8F
    else a >= 0x80
  }

  function Shift(ch: bv32): bv32 {
    ch << 6
  }

  function AddByte(ch: bv32, b: bv8): bv32 {
    ch + b as bv32
  }

  function Push(ch: bv32, b: bv8): bv32 {
    AddByte(Shift(ch), b)
  }

  /** The fall-through reading switch: a byte is added, and the sum shifted before the next one. */
  function Gather(s: seq<bv8>, extra: nat): bv32
    requires extra < |s|
  {
    if extra == 0 then s[0] as bv32 else Push(Gather(s, extra - 1), s[extra])
  }

  function Read8(s: seq<bv8>): Character
    requires s != []
  {
    var extra := TrailingBytes(s[0]);
    if extra >= |s| then Unreadable(SourceExhausted)
    else if !IsLegal(s, extra + 1) then Unreadable(SourceIllegal)
    else Character(Gather(s, extra) - Offset(extra), extra + 1)
  }

  // ---- one step of each converter

  /** A step moves forward inside the source, asks for no more than one encoded character's room and
      for just the room it fills, or one unit more when it passes over an illegal value, and stops by
      itself only because of the source. */
  predicate Sound<S, T>(s: seq<S>, o: Outcome<T>, most: nat) {
    && o.need <= most
    && (o.Take? && s != [] ==> 0 < o.consumed <= |s| && |o.units| <= o.need <= |o.units| + 1)
    && (o.Take? && s != [] && !o.illegal ==> o.need == |o.units|)
    && (o.Halt? ==> o.result != TargetExhausted && (s != [] ==> o.result != ConversionOK))
  }

  function Step32to16(s: seq<bv32>, flags: Flags): (o: Outcome<bv16>)
    ensures Sound(s, o, 2)
  {
    if s == [] then Halt(ConversionOK, 0) else
    var ch := s[0];
    if ch <= 0xFFFF then
      if Surrogate(ch) then
        if flags.Strict? then Halt(SourceIllegal, 1) else Take(1, [0xFFFD], 1, false)
      else Take(1, [UnitOf(ch)], 1, false)
    else if ch > 0x10FFFF then
      if flags.Strict? then Take(1, [], 1, true) else Take(1, [0xFFFD], 1, false)
    else Take(1, UnitsOf(ch), 2, false)
  }

  function Step16to32(s: seq<bv16>, flags: Flags): (o: Outcome<bv32>)
    ensures Sound(s, o, 1)
  {
    if s == [] then Halt(ConversionOK, 0) else
    match Read16(s, flags)
    case Unreadable(result) => Halt(result, 0)
    case Character(ch, n) => Take(n, [ch], 1, false)
  }

  function Step16to8(s: seq<bv16>, flags: Flags): (o: Outcome<bv8>)
    ensures Sound(s, o, 4)
  {
    if s == [] then Halt(ConversionOK, 0) else
    match Read16(s, flags)
    case Unreadable(result) => Halt(result, 0)
    case Character(ch, n) =>
      var bytes := WrittenBytes(if ch < 0x110000 then ch else REPLACEMENT, BytesToWrite(ch));
      Take(n, bytes, BytesToWrite(ch), false)
  }

  function Step8to16(s: seq<bv8>, flags: Flags): (o: Outcome<bv16>)
    ensures Sound(s, o, 2)
  {
    if s == [] then Halt(ConversionOK, 0) else
    match Read8(s)
    case Unreadable(result) => Halt(result, 0)
    case Character(ch, n) =>
      if ch <= 0xFFFF then
        if Surrogate(ch) then
          if flags.Strict? then Halt(SourceIllegal, 1) else Take(n, [0xFFFD], 1, false)
        else Take(n, [UnitOf(ch)], 1, false)
      else if ch > 0x10FFFF then
        if flags.Strict? then Halt(SourceIllegal, 1) else Take(n, [0xFFFD], 1, false)
      else Take(n, UnitsOf(ch), 2, false)
  }

  function Step32to8(s: seq<bv32>, flags: Flags): (o: Outcome<bv8>)
    ensures Sound(s, o, 4)
  {
    if s == [] then Halt(ConversionOK, 0) else
    var ch := s[0];
    if flags.Strict? && Surrogate(ch) then Halt(SourceIllegal, 0)
    else
      var bytes := WrittenBytes(if ch <= 0x10FFFF then ch else REPLACEMENT, BytesToWrite(ch));
      Take(1, bytes, BytesToWrite(ch), ch > 0x10FFFF)
  }

  function Step8to32(s: seq<bv8>, flags: Flags): (o: Outcome<bv32>)
    ensures Sound(s, o, 1)
  {
    if s == [] then Halt(ConversionOK, 0) else
    match Read8(s)
    case Unreadable(result) => Halt(result, 0)
    case Character(ch, n) =>
      if ch <= 0x10FFFF then
        if Surrogate(ch) then
          if flags.Strict? then Halt(SourceIllegal, 1) else Take(n, [REPLACEMENT], 1, false)
        else Take(n, [ch], 1, false)
      else Take(n, [REPLACEMENT], 1, true)
  }

  // ---- the converters as functions, and that they are converters

  function From32to16(flags: Flags): seq<bv32> -> Outcome<bv16> { s => Step32to16(s, flags) }
  function From16to32(flags: Flags): seq<bv16> -> Outcome<bv32> { s => Step16to32(s, flags) }
  function From16to8(flags: Flags): seq<bv16> -> Outcome<bv8> { s => Step16to8(s, flags) }
  function From8to16(flags: Flags): seq<bv8> -> Outcome<bv16> { s => Step8to16(s, flags) }
  function From32to8(flags: Flags): seq<bv32> -> Outcome<bv8> { s => Step32to8(s, flags) }
  function From8to32(flags: Flags): seq<bv8> -> Outcome<bv32> { s => Step8to32(s, flags) }

  ghost predicate Bounded<S(!new), T(!new)>(step: seq<S> -> Outcome<T>, most: nat) {
    Converter(step) && HaltsForSource(step) && HaltsWithError(step) && forall s :: step(s).need <= most
  }

  lemma Bounded32to16(flags: Flags)
    ensures Bounded(From32to16(flags), 2)
  {
    forall s ensures Sound(s, From32to16(flags)(s), 2) { assert From32to16(flags)(s) == Step32to16(s, flags); }
  }

  lemma Bounded16to32(flags: Flags)
    ensures Bounded(From16to32(flags), 1)
  {
    forall s ensures Sound(s, From16to32(flags)(s), 1) { assert From16to32(flags)(s) == Step16to32(s, flags); }
  }

  lemma Bounded16to8(flags: Flags)
    ensures Bounded(From16to8(flags), 4)
  {
    forall s ensures Sound(s, From16to8(flags)(s), 4) { assert From16to8(flags)(s) == Step16to8(s, flags); }
  }

  lemma Bounded8to16(flags: Flags)
    ensures Bounded(From8to16(flags), 2)
  {
    forall s ensures Sound(s, From8to16(flags)(s), 2) { assert From8to16(flags)(s) == Step8to16(s, flags); }
  }

  lemma Bounded32to8(flags: Flags)
    ensures Bounded(From32to8(flags), 4)
  {
    forall s ensures Sound(s, From32to8(flags)(s), 4) { assert From32to8(flags)(s) == Step32to8(s, flags); }
  }

  lemma Bounded8to32(flags: Flags)
    ensures Bounded(From8to32(flags), 1)
  {
    forall s ensures Sound(s, From8to32(flags)(s), 1) { assert From8to32(flags)(s) == Step8to32(s, flags); }
  }
}
