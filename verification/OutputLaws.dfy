/** What the converters write for every source, well-formed or not. */
module OutputLaws {
  import opened Wrappers
  import opened Conversion
  import opened Unicode
  import opened ConvertUTF
  import opened ConvertUTFLaws
  import opened TextLaws
  import opened AcceptanceLaws

  // ---- sources of UTF-32: value by value

  /** A converter that decides about each value by itself: what it writes for it, the room it asks for first,
      and which values it passes over with a mark or refuses. */
  datatype Table<!S, T> = Table(out: S -> seq<T>, need: S -> nat, passed: S -> bool, refused: S -> bool)

  ghost predicate Follows<S(!new), T(!new)>(step: seq<S> -> Outcome<T>, table: Table<S, T>) {
    forall s :: s != [] ==> FollowsAt(step(s), s[0], table)
  }

  ghost predicate FollowsAt<S, T>(o: Outcome<T>, x: S, table: Table<S, T>) {
    if table.refused(x) then o == Halt(SourceIllegal, table.need(x))
    else o == Take(1, table.out(x), table.need(x), table.passed(x))
  }

  /** The run has written the table's entries of the values it consumed, and stopped where the next one is
      refused or asks for more room than is left; a mark turns success into an error. */
  ghost predicate WrittenBy<S(!new), T(!new)>(s: seq<S>, room: nat, table: Table<S, T>, a: Conversion<T>) {
    && a.consumed <= |s| && |a.out| <= room
    && a.out == Flat(s[..a.consumed], table.out) && !Any(s[..a.consumed], table.refused)
    && (a.illegal <==> Any(s[..a.consumed], table.passed))
    && (if a.consumed == |s| then a.result == (if a.illegal then SourceIllegal else ConversionOK)
        else if room - |a.out| < table.need(s[a.consumed]) then a.result == TargetExhausted
        else a.result == SourceIllegal && table.refused(s[a.consumed]))
  }

  lemma {:induction false} RunFollows<S(!new), T(!new)>(step: seq<S> -> Outcome<T>, s: seq<S>, room: nat, table: Table<S, T>)
    requires Converter(step) && Follows(step, table)
    ensures WrittenBy(s, room, table, Run(step, s, room))
  {
    if s == [] {
    } else {
      assert FollowsAt(step(s), s[0], table);
      if room < step(s).need || step(s).Halt? {
        assert s[..0] == [];
      } else {
        RunFollows(step, s[1..], room - |step(s).units|, table);
        OneMoreValue(s, room, table, step(s), Run(step, s[1..], room - |step(s).units|));
      }
    }
  }

  lemma OneMoreValue<S(!new), T(!new)>(s: seq<S>, room: nat, table: Table<S, T>, o: Outcome<T>, b: Conversion<T>)
    requires s != [] && FollowsAt(o, s[0], table) && o.Take? && |o.units| <= room
    requires WrittenBy(s[1..], room - |o.units|, table, b)
    ensures WrittenBy(s, room, table, Join(Taken(o), b))
  {
    var n := 1 + b.consumed;
    FlatPrefix(s, table.out, n);
    AnyOfFirst(s, n, table.refused);
    AnyOfFirst(s, n, table.passed);
  }

  /** Up to the last code point its bytes by Table 3-6, surrogates in the three-byte form; above it U+FFFD. */
  function Bytes32(ch: bv32): seq<bv8> {
    if ch <= 0x10FFFF then Utf8(ch) else [0xEF, 0xBF, 0xBD]
  }

  function Table32to8(flags: Flags): Table<bv32, bv8> {
    Table(Bytes32, ch => if flags.Strict? && 0xD800 <= ch <= 0xDFFF then 0 else |Bytes32(ch)|,
          ch => ch > 0x10FFFF, ch => flags.Strict? && 0xD800 <= ch <= 0xDFFF)
  }

  /** A scalar value's units; U+FFFD for a surrogate, and above the last code point U+FFFD or, if strict,
      nothing, but with room for a unit. */
  function Units32(flags: Flags): bv32 -> seq<bv16> {
    ch => if 0xD800 <= ch <= 0xDFFF then [0xFFFD]
          else if ch <= 0x10FFFF then Utf16(ch)
          else if flags.Strict? then [] else [0xFFFD]
  }

  function Table32to16(flags: Flags): Table<bv32, bv16> {
    Table(Units32(flags), ch => if 0x10000 <= ch <= 0x10FFFF then 2 else 1,
          ch => flags.Strict? && ch > 0x10FFFF, ch => flags.Strict? && 0xD800 <= ch <= 0xDFFF)
  }

  /** Every source of UTF-32, with either flag and any room, is written as these tables say. */
  lemma Writes32to8(s: seq<bv32>, room: nat, flags: Flags)
    ensures Converter(From32to8(flags)) && WrittenBy(s, room, Table32to8(flags), Run(From32to8(flags), s, room))
  {
    Bounded32to8(flags);
    hide Utf8;
    forall t: seq<bv32> | t != [] ensures FollowsAt(From32to8(flags)(t), t[0], Table32to8(flags)) {
      assert From32to8(flags)(t) == Step32to8(t, flags);
      Value32to8(t, flags);
    }
    RunFollows(From32to8(flags), s, room, Table32to8(flags));
  }

  lemma Value32to8(t: seq<bv32>, flags: Flags)
    requires t != []
    ensures FollowsAt(Step32to8(t, flags), t[0], Table32to8(flags))
  {
    var ch := t[0];
    if ch <= 0x10FFFF { WritesUtf8(ch); } else { WritesReplacement(); }
  }

  lemma WritesReplacement()
    ensures WrittenBytes(REPLACEMENT, 3) == [0xEF, 0xBF, 0xBD]
  {}

  lemma Writes32to16(s: seq<bv32>, room: nat, flags: Flags)
    ensures Converter(From32to16(flags)) && WrittenBy(s, room, Table32to16(flags), Run(From32to16(flags), s, room))
  {
    Bounded32to16(flags);
    forall t: seq<bv32> | t != [] ensures FollowsAt(From32to16(flags)(t), t[0], Table32to16(flags)) {
      assert From32to16(flags)(t) == Step32to16(t, flags);
      Value32to16(t, flags);
    }
    RunFollows(From32to16(flags), s, room, Table32to16(flags));
  }

  lemma Value32to16(t: seq<bv32>, flags: Flags)
    requires t != []
    ensures FollowsAt(Step32to16(t, flags), t[0], Table32to16(flags))
  {
    var ch := t[0];
    if ch < 0x10000 { WritesOneUnit(ch); } else if ch <= 0x10FFFF { WritesUtf16(ch); }
  }

  // ---- sources of UTF-16: character by character, lenient ones as well

  predicate StartsPair(s: seq<bv16>) {
    |s| > 1 && 0xD800 <= s[0] <= 0xDBFF && 0xDC00 <= s[1] <= 0xDFFF
  }

  /** A surrogate pair at the start of `s` as its value, any other unit as itself. */
  function FirstValue(s: seq<bv16>): bv32
    requires s != []
  {
    if StartsPair(s) then ((s[0] as bv32 - 0xD800) << 10) + (s[1] as bv32 - 0xDC00) + 0x10000 else s[0] as bv32
  }

  function FirstLength(s: seq<bv16>): (n: nat)
    requires s != []
    ensures 1 <= n <= |s|
  {
    if StartsPair(s) then 2 else 1
  }

  function Characters(s: seq<bv16>): seq<bv32> {
    if s == [] then [] else [FirstValue(s)] + Characters(s[FirstLength(s)..])
  }

  /** Why a reader does not take the unit at the start of `s`: a high surrogate at the end of the source, or, if
      strict, a surrogate without its other half. */
  function Unread(s: seq<bv16>, flags: Flags): Option<Result>
    requires s != []
  {
    if StartsPair(s) || !(0xD800 <= s[0] <= 0xDFFF) then None
    else if s[0] <= 0xDBFF && |s| == 1 then Some(SourceExhausted)
    else if flags.Strict? then Some(SourceIllegal)
    else None
  }

  ghost predicate ReadsCharacter<T>(o: Outcome<T>, s: seq<bv16>, flags: Flags, out: bv32 -> seq<T>)
    requires s != []
  {
    match Unread(s, flags)
    case Some(why) => o == Halt(why, 0)
    case None => o == Take(FirstLength(s), out(FirstValue(s)), |out(FirstValue(s))|, false)
  }

  /** The run has written the characters it consumed, and stopped where the next one is not read or does not fit. */
  ghost predicate CharactersWritten<T(!new)>(s: seq<bv16>, room: nat, flags: Flags, out: bv32 -> seq<T>, a: Conversion<T>) {
    && a.consumed <= |s| && |a.out| <= room && !a.illegal && a.out == Flat(Characters(s[..a.consumed]), out)
    && (if a.consumed == |s| then a.result == ConversionOK else
        var rest := s[a.consumed..];
        match Unread(rest, flags)
        case Some(why) => a.result == why
        case None => a.result == TargetExhausted && room - |a.out| < |out(FirstValue(rest))|)
  }

  lemma CharactersFirst(s: seq<bv16>, m: nat)
    requires s != [] && FirstLength(s) + m <= |s|
    ensures Characters(s[..FirstLength(s) + m]) == [FirstValue(s)] + Characters(s[FirstLength(s)..][..m])
  {
    var n := FirstLength(s);
    var p := s[..n + m];
    assert p[n..] == s[n..][..m];
    assert StartsPair(p) <==> StartsPair(s);
  }

  lemma {:induction false} RunReads<T(!new)>(step: seq<bv16> -> Outcome<T>, s: seq<bv16>, room: nat, flags: Flags, out: bv32 -> seq<T>)
    requires Converter(step) && forall t: seq<bv16> :: t != [] ==> ReadsCharacter(step(t), t, flags, out)
    ensures CharactersWritten(s, room, flags, out, Run(step, s, room))
    decreases |s|
  {
    hide FirstValue, CharactersWritten, ReadsCharacter, Unread;
    if s == [] {
      NothingToRead(s, room, flags, out);
    } else {
      var o := step(s);
      CharacterTaken(o, s, flags, out);
      if room < o.need || o.Halt? {
        StopsAtFirst(s, room, flags, out, o);
      } else {
        RunReads(step, s[o.consumed..], room - |o.units|, flags, out);
        RunTakes(step, s, room, s[o.consumed..], room - |o.units|);
        hide Run, Converter;
        OneMoreCharacter(s, room, flags, out, o, Run(step, s[o.consumed..], room - |o.units|));
      }
    }
  }

  lemma NothingToRead<T(!new)>(s: seq<bv16>, room: nat, flags: Flags, out: bv32 -> seq<T>)
    requires s == []
    ensures CharactersWritten(s, room, flags, out, Done())
  {}

  lemma CharacterTaken<T>(o: Outcome<T>, s: seq<bv16>, flags: Flags, out: bv32 -> seq<T>)
    requires s != [] && ReadsCharacter(o, s, flags, out)
    ensures o.Take? ==> 0 < o.consumed <= |s| && o.need == |o.units|
  {
    hide FirstValue;
  }

  lemma StopsAtFirst<T(!new)>(s: seq<bv16>, room: nat, flags: Flags, out: bv32 -> seq<T>, o: Outcome<T>)
    requires s != [] && ReadsCharacter(o, s, flags, out) && (room < o.need || o.Halt?)
    ensures CharactersWritten(s, room, flags, out, Stop(if room < o.need then TargetExhausted else o.result))
  {
    hide FirstValue, Unread;
    assert s[..0] == [] && s[0..] == s;
  }

  lemma OneMoreCharacter<T(!new)>(s: seq<bv16>, room: nat, flags: Flags, out: bv32 -> seq<T>, o: Outcome<T>, b: Conversion<T>)
    requires s != [] && ReadsCharacter(o, s, flags, out) && o.Take? && |o.units| <= room
    requires CharactersWritten(s[o.consumed..], room - |o.units|, flags, out, b)
    ensures CharactersWritten(s, room, flags, out, Join(Taken(o), b))
  {
    hide FirstValue, Unread;
    CharactersFirst(s, b.consumed);
    var x, more := FirstValue(s), Characters(s[o.consumed..][..b.consumed]);
    assert ([x] + more)[1..] == more;
    assert s[o.consumed..][b.consumed..] == s[o.consumed + b.consumed..];
  }

  lemma PairInRange(high: bv16, low: bv16)
    requires 0xD800 <= high <= 0xDBFF && 0xDC00 <= low <= 0xDFFF
    ensures 0x10000 <= PairValue(high, low) <= 0x10FFFF
  {}

  lemma UnitInRange(unit: bv16)
    ensures unit as bv32 <= 0x10FFFF
  {}

  lemma FirstInRange(s: seq<bv16>)
    requires s != []
    ensures FirstValue(s) <= 0x10FFFF && FirstValue(s) == if StartsPair(s) then PairValue(s[0], s[1]) else s[0] as bv32
  {
    if StartsPair(s) { PairInRange(s[0], s[1]); } else { UnitInRange(s[0]); }
  }

  lemma FirstRead(t: seq<bv16>, flags: Flags)
    requires t != []
    ensures match Unread(t, flags)
            case Some(why) => Read16(t, flags) == Unreadable(why)
            case None => Read16(t, flags) == Character(FirstValue(t), FirstLength(t))
  {
    FirstInRange(t);
    hide FirstValue, PairValue;
  }

  lemma Character16to32(t: seq<bv16>, flags: Flags)
    requires t != []
    ensures ReadsCharacter(From16to32(flags)(t), t, flags, Utf32) && FirstValue(t) <= 0x10FFFF
  {
    hide FirstValue, Read16, Unread, FirstLength;
    assert From16to32(flags)(t) == Step16to32(t, flags);
    FirstInRange(t);
    FirstRead(t, flags);
  }

  lemma Character16to8(t: seq<bv16>, flags: Flags)
    requires t != []
    ensures ReadsCharacter(From16to8(flags)(t), t, flags, Utf8)
  {
    hide Utf8, FirstValue;
    Character16to32(t, flags);
    SameCharacters(t, flags);
    Bounded16to8(flags);
  }

  /** Every source of UTF-16, with either flag and any room, is written character by character: a surrogate
      that a lenient conversion lets pass in its three-byte form. */
  lemma Writes16to32(s: seq<bv16>, room: nat, flags: Flags)
    ensures Converter(From16to32(flags)) && CharactersWritten(s, room, flags, Utf32, Run(From16to32(flags), s, room))
  {
    Bounded16to32(flags);
    hide Converter, Bounded;
    forall t: seq<bv16> | t != [] ensures ReadsCharacter(From16to32(flags)(t), t, flags, Utf32) { Character16to32(t, flags); }
    RunReads(From16to32(flags), s, room, flags, Utf32);
  }

  lemma Writes16to8(s: seq<bv16>, room: nat, flags: Flags)
    ensures Converter(From16to8(flags)) && CharactersWritten(s, room, flags, Utf8, Run(From16to8(flags), s, room))
  {
    Bounded16to8(flags);
    hide Converter, Bounded;
    forall t: seq<bv16> | t != [] ensures ReadsCharacter(From16to8(flags)(t), t, flags, Utf8) { Character16to8(t, flags); }
    RunReads(From16to8(flags), s, room, flags, Utf8);
  }

  // ---- sources of UTF-8: sequence by sequence, the ill-formed ones that are accepted as well

  /** Six more bits; a byte without the mark of continuation takes away. */
  function Group(x: bv32, b: bv8): bv32 {
    (x << 6) + (b as bv32 - 0x80)
  }

  /** What the bits of a sequence stand for, without the marks of its first byte and of continuation bytes. */
  function PlaceValue(p: seq<bv8>): bv32 {
    match |p|
    case 1 => p[0] as bv32
    case 2 => Group(p[0] as bv32 - 0xC0, p[1])
    case 3 => Group(Group(p[0] as bv32 - 0xE0, p[1]), p[2])
    case 4 => Group(Group(Group(p[0] as bv32 - 0xF0, p[1]), p[2]), p[3])
    case _ => 0
  }

  lemma GroupOf(x: bv32, mark: bv32, b: bv32)
    ensures (x << 6) + b - ((mark << 6) + 0x80) == ((x - mark) << 6) + (b - 0x80)
  {}

  lemma ValueOf2(p: seq<bv8>)
    requires |p| == 2
    ensures Value(p) == PlaceValue(p)
  {
    Gather1(p);
    GroupOf(p[0] as bv32, 0xC0, p[1] as bv32);
  }

  lemma ValueOf3(p: seq<bv8>)
    requires |p| == 3
    ensures Value(p) == PlaceValue(p)
  {
    Value3(p);
    var x, b, c := p[0] as bv32, p[1] as bv32, p[2] as bv32;
    GroupOf(x, 0xE0, b);
    GroupOf((x << 6) + b, 0x3880, c);
  }

  lemma ValueOf4(p: seq<bv8>)
    requires |p| == 4
    ensures Value(p) == PlaceValue(p)
  {
    Value4(p);
    var x, b, c, d := p[0] as bv32, p[1] as bv32, p[2] as bv32, p[3] as bv32;
    GroupOf(x, 0xF0, b);
    GroupOf((x << 6) + b, 0x3C80, c);
    GroupOf((((x << 6) + b) << 6) + c, 0xF2080, d);
  }

  lemma ValueIsPlaced(p: seq<bv8>)
    requires 1 <= |p| <= 4
    ensures Value(p) == PlaceValue(p)
  {
    hide Push, Group;
    if |p| == 2 {
      ValueOf2(p);
    } else if |p| == 3 {
      ValueOf3(p);
    } else if |p| == 4 {
      ValueOf4(p);
    }
  }

  function Placed(p: seq<bv8>): seq<bv32> {
    [PlaceValue(p)]
  }

  function PlacedUnits(p: seq<bv8>): seq<bv16> {
    Utf16(PlaceValue(p))
  }

  lemma {:induction false} ValuesArePlaced(parts: seq<seq<bv8>>)
    requires AllGood(parts, Acceptable)
    ensures Values(parts, ValueAs32) == Values(parts, Placed) && Values(parts, ValueAs16) == Values(parts, PlacedUnits)
  {
    hide Acceptable, Value, PlaceValue, Utf16;
    if parts != [] {
      AcceptableIsShort(parts[0]);
      ValueIsPlaced(parts[0]);
      ValuesArePlaced(parts[1..]);
    }
  }

  lemma AcceptableIsShort(p: seq<bv8>)
    requires Acceptable(p)
    ensures 1 <= |p| <= 4
  {}

  /** Whatever a reader of UTF-8 consumes splits into accepted sequences, and it writes their place values. */
  lemma Writes8to32(s: seq<bv8>, room: nat, flags: Flags) returns (parts: seq<seq<bv8>>)
    ensures Converter(From8to32(flags)) && Run(From8to32(flags), s, room).consumed <= |s|
    ensures var a := Run(From8to32(flags), s, room);
            AllGood(parts, Acceptable) && s[..a.consumed] == Concat(parts) && a.out == Values(parts, Placed)
  {
    Decoder8to32(flags);
    ConsumedIsConverted(From8to32(flags), Acceptable, ValueAs32, s, room);
    var a := Run(From8to32(flags), s, room);
    parts := ConvertedIsGood(From8to32(flags), Acceptable, ValueAs32, s[..a.consumed]);
    ValuesArePlaced(parts);
  }

  lemma Writes8to16(s: seq<bv8>, room: nat, flags: Flags) returns (parts: seq<seq<bv8>>)
    ensures Converter(From8to16(flags)) && Run(From8to16(flags), s, room).consumed <= |s|
    ensures var a := Run(From8to16(flags), s, room);
            AllGood(parts, Acceptable) && s[..a.consumed] == Concat(parts) && a.out == Values(parts, PlacedUnits)
  {
    Decoder8to16(flags);
    ConsumedIsConverted(From8to16(flags), Acceptable, ValueAs16, s, room);
    var a := Run(From8to16(flags), s, room);
    parts := ConvertedIsGood(From8to16(flags), Acceptable, ValueAs16, s[..a.consumed]);
    ValuesArePlaced(parts);
  }
}
