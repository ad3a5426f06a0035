/** What json5cpp.h reads from a stream of bytes, as functions of the stream and a position. Reading
    past the end moves on as well, and reads `EOF`. */
module Json5Grammar {
  import opened Wrappers
  import Bits

  type Byte = x: int | 0 <= x <= 255
  type Bytes = seq<Byte>

  const EOF := -1

  function At(s: Bytes, i: nat): (c: int)
    ensures -1 <= c <= 255 && (c == EOF <==> i >= |s|)
  {
    if i < |s| then s[i] else EOF
  }

  /** What is left to be read. */
  function Left(s: Bytes, i: nat): nat {
    if i < |s| then |s| - i else 0
  }

  predicate Is(c: int, ch: char) {
    c == ch as int
  }

  predicate Between(c: int, low: char, high: char) {
    low as int <= c <= high as int
  }

  // ---- white space and comments

  predicate IsLineTerminator3(a: int, b: int, c: int) {
    a == 0xE2 && b == 0x80 && (c == 0xA8 || c == 0xA9)
  }

  predicate IsWhite1(c: int) {
    9 <= c <= 13 || Is(c, ' ')
  }

  predicate IsWhite2(a: int, b: int) {
    a == 0xC2 && b == 0xA0
  }

  predicate IsWhite3(a: int, b: int, c: int) {
    a >= 128 &&
    (IsLineTerminator3(a, b, c)
     || (a == 0xEF && b == 0xBB && c == 0xBF)
     || (a == 0xE1 && b == 0x9A && c == 0x80)
     || (a == 0xE2 && b == 0x80 && 0x80 <= c <= 0x8A)
     || (a == 0xE2 && b == 0x80 && (c == 0xA8 || c == 0xA9 || c == 0xAF))
     || (a == 0xE2 && b == 0x81 && c == 0x9F)
     || (a == 0xE3 && b == 0x80 && c == 0x80))
  }

  function PastLine(s: Bytes, i: nat): (next: nat)
    ensures next > i
    decreases Left(s, i)
  {
    var c := At(s, i);
    if c == EOF || Is(c, '\n') || Is(c, '\r') then i + 1
    else if IsLineTerminator3(c, At(s, i + 1), At(s, i + 2)) then i + 3
    else PastLine(s, i + 1)
  }

  /** Behind the first `*` `/` from `i` on. */
  function PastComment(s: Bytes, i: nat): (next: nat)
    ensures next > i
    decreases Left(s, i)
  {
    if (Is(At(s, i), '*') && Is(At(s, i + 1), '/')) || At(s, i + 1) == EOF then i + 2 else PastComment(s, i + 1)
  }

  function SkipSpace(s: Bytes, i: nat): (next: nat)
    ensures next >= i
    decreases Left(s, i)
  {
    var a, b, c := At(s, i), At(s, i + 1), At(s, i + 2);
    if a == EOF then i
    else if IsWhite1(a) then SkipSpace(s, i + 1)
    else if IsWhite2(a, b) then SkipSpace(s, i + 2)
    else if IsWhite3(a, b, c) then SkipSpace(s, i + 3)
    else if Is(a, '/') && Is(b, '/') then SkipSpace(s, PastLine(s, i + 2))
    else if Is(a, '/') && Is(b, '*') then SkipSpace(s, PastComment(s, i + 2))
    else i
  }

  // ---- identifiers

  predicate IsIdentStart(c: int) {
    Between(c, 'a', 'z') || Between(c, 'A', 'Z') || Is(c, '$') || Is(c, '_') || Is(c, '\\')
  }

  predicate IsIdentPart(a: int, b: int, c: int) {
    IsIdentStart(a) || (a >= 128 && !IsWhite2(a, b) && !IsWhite3(a, b, c)) || Between(a, '0', '9')
  }

  function IdentEnd(s: Bytes, i: nat): (end: nat)
    ensures i <= end && (i <= |s| ==> end <= |s|)
    decreases Left(s, i)
  {
    if IsIdentPart(At(s, i), At(s, i + 1), At(s, i + 2)) then IdentEnd(s, i + 1) else i
  }

  /** A name, which may start with any character that is not ASCII. */
  function ReadIdentifier(s: Bytes, i: nat): (r: Option<(Bytes, nat)>)
    ensures r.Some? ==> i < r.value.1 <= |s|
  {
    var c := At(s, i);
    if c < 128 && !IsIdentStart(c) then None
    else
      var end := IdentEnd(s, i + 1);
      Some((s[i..end], end))
  }

  // ---- string literals

  /** The digits go on from `A` to `Z`. */
  function HexChar(c: int): (d: int)
    ensures -1 <= d <= 35 && (c == EOF ==> d == EOF)
  {
    if Between(c, '0', '9') then c - '0' as int
    else if Between(c, 'a', 'f') then c - 'a' as int + 10
    else if Between(c, 'A', 'Z') then c - 'A' as int + 10
    else EOF
  }

  function WriteUtf8(n: nat): Bytes {
    if n >= 0x10000 then
      [0xF0 + n / 0x40000 % 8, 0x80 + n / 0x1000 % 64, 0x80 + n / 64 % 64, 0x80 + n % 64]
    else if n >= 0x800 then [0xE0 + n / 0x1000 % 16, 0x80 + n / 64 % 64, 0x80 + n % 64]
    else if n >= 0x80 then [0xC0 + n / 64 % 32, 0x80 + n % 64]
    else [n]
  }

  /** Four digits, shifted and or-ed together. */
  function Read4Hex(s: Bytes, i: nat): Option<nat> {
    var a, b, c, d := HexChar(At(s, i)), HexChar(At(s, i + 1)), HexChar(At(s, i + 2)), HexChar(At(s, i + 3));
    if a == EOF || b == EOF || c == EOF || d == EOF then None
    else Some(Bits.Or(Bits.Or(Bits.Or(a * 0x1000, b * 0x100), c * 0x10), d))
  }

  /** The text a unicode escape stands for, and the position behind it; after an error no text and
      the position reached. */
  function ReadEscape(s: Bytes, i: nat): (r: (Bytes, nat))
    ensures r.1 > i
  {
    match Read4Hex(s, i)
    case None => ([], i + 4)
    case Some(u1) =>
      if 0xD800 <= u1 <= 0xDBFF then
        if !Is(At(s, i + 4), '\\') then ([], i + 4)
        else if !Is(At(s, i + 5), 'u') then ([], i + 5)
        else
          match Read4Hex(s, i + 6)
          case None => ([], i + 10)
          case Some(u2) =>
            if 0xDC00 <= u2 <= 0xDFFF then (WriteUtf8((u1 - 0xD800) * 0x400 + u2 - 0xDC00 + 0x10000), i + 10)
            else ([], i + 10)
      else if 0xDC00 <= u1 <= 0xDFFF then ([], i + 4)
      else (WriteUtf8(u1), i + 4)
  }

  /** What a backslash and the character at `i` stand for, or `None` where that is an error. */
  function ReadBackslash(s: Bytes, i: nat): (r: Option<(Bytes, nat)>)
    ensures r.Some? ==> i < r.value.1 && i < |s|
  {
    var c := At(s, i);
    if c == EOF then None
    else if Is(c, 'b') then Some(([8], i + 1))
    else if Is(c, 'f') then Some(([12], i + 1))
    else if Is(c, 'n') then Some(([10], i + 1))
    else if Is(c, 'r') then Some(([13], i + 1))
    else if Is(c, 't') then Some(([9], i + 1))
    else if Is(c, 'v') then Some(([11], i + 1))
    else if Is(c, '0') then Some(([if Between(At(s, i + 1), '0', '9') then c else 0], i + 1))
    else if Is(c, 'x') then
      var a, b := HexChar(At(s, i + 1)), HexChar(At(s, i + 2));
      if a == EOF || b == EOF then None else Some(([Bits.Or(a * 0x10, b) % 0x100], i + 3))
    else if Is(c, 'u') then Some(ReadEscape(s, i + 1))
    else if Is(c, '\r') && Is(At(s, i + 1), '\n') then Some(([13, 10], i + 2))
    else Some(([c], i + 1))
  }

  /** The characters of a literal up to the closing quote. */
  function ReadChars(s: Bytes, i: nat, quote: int): (r: Option<(Bytes, nat)>)
    ensures r.Some? ==> i < r.value.1 <= |s|
    decreases Left(s, i)
  {
    var c := At(s, i);
    if c == EOF then None
    else if c == quote then Some(([], i + 1))
    else if Is(c, '\\') then
      match ReadBackslash(s, i + 1)
      case None => None
      case Some((text, next)) => Before(text, ReadChars(s, next, quote))
    else if Is(c, '\n') || Is(c, '\r') then None
    else Before([c], ReadChars(s, i + 1, quote))
  }

  function Before(text: Bytes, r: Option<(Bytes, nat)>): (q: Option<(Bytes, nat)>)
    ensures q.Some? <==> r.Some?
    ensures q.Some? ==> q.value.1 == r.value.1
  {
    match r
    case None => None
    case Some((more, next)) => Some((text + more, next))
  }

  function ReadString(s: Bytes, i: nat): (r: Option<(Bytes, nat)>)
    ensures r.Some? ==> i < r.value.1 <= |s|
  {
    ReadChars(s, i + 1, At(s, i))
  }

  // ---- numbers

  /** An object is the list of its members as they are read; the last one of a name counts. */
  datatype Value =
    | Null
    | Bool(value: bool)
    | Text(text: Bytes)
    | Whole(negative: bool, magnitude: nat)
    | Decimal(text: Bytes)
    | Infinity(negative: bool)
    | NaN
    | List(items: seq<Value>)
    | Object(members: seq<Member>)

  datatype Member = Member(key: Bytes, value: Value)

  function Ascii(text: string): Bytes
    requires forall c :: c in text ==> c < '\U{80}'
  {
    if text == "" then [] else assert text[0] in text && forall c :: c in text[1..] ==> c in text; [text[0] as int] + Ascii(text[1..])
  }

  predicate IsFlat(v: Value) {
    !v.List? && !v.Object?
  }

  function DigitsEnd(s: Bytes, i: nat): (end: nat)
    ensures i <= end && (i <= |s| ==> end <= |s|) && (i < |s| && Between(s[i], '0', '9') ==> i < end)
    decreases Left(s, i)
  {
    if Between(At(s, i), '0', '9') then DigitsEnd(s, i + 1) else i
  }

  /** Hexadecimal digits shifted into a word of 64 bits. */
  function ReadHex(s: Bytes, i: nat, number: nat): (r: (nat, nat))
    ensures i <= r.1 && (i <= |s| ==> r.1 <= |s|)
    decreases Left(s, i)
  {
    var digit := HexChar(At(s, i));
    if digit == EOF then (number, i) else ReadHex(s, i + 1, (number * 16 + digit) % 0x1_0000_0000_0000_0000)
  }

  /** The text of a decimal number from its integer part on, in the form JSON allows. */
  function ReadDecimal(s: Bytes, i: nat, text: Bytes): (r: (Bytes, nat))
    requires i <= |s|
    ensures i <= r.1 <= |s|
    ensures i < |s| && (Between(s[i], '0', '9') || Is(s[i], '.')) ==> i < r.1
  {
    var whole := DigitsEnd(s, i);
    var (fraction, end) := ReadFraction(s, whole, text + s[i..whole]);
    ReadExponent(s, end, fraction)
  }

  /** A point gets a digit behind it. */
  function ReadFraction(s: Bytes, i: nat, text: Bytes): (r: (Bytes, nat))
    requires i <= |s|
    ensures i <= r.1 <= |s| && (i < |s| && Is(s[i], '.') ==> i < r.1)
  {
    var start := if Is(At(s, i), '.') then i + 1 else i;
    var end := DigitsEnd(s, start);
    var pointed := if start > i then text + ['.' as int] else text;
    var ready := if start > i && !Between(At(s, start), '0', '9') then pointed + ['0' as int] else pointed;
    (ready + s[start..end], end)
  }

  function ReadExponent(s: Bytes, i: nat, text: Bytes): (r: (Bytes, nat))
    requires i <= |s|
    ensures i <= r.1 <= |s|
  {
    if !Is(At(s, i), 'e') && !Is(At(s, i), 'E') then (text, i)
    else
      var sign := At(s, i + 1);
      var signed := Is(sign, '+') || Is(sign, '-');
      var start := if signed then i + 2 else i + 1;
      var end := DigitsEnd(s, start);
      var marked := text + ['e' as int];
      ((if signed then marked + [sign] else marked) + s[start..end], end)
  }

  predicate StartsNumber(c: int) {
    Between(c, '0', '9') || Is(c, '.') || Is(c, '+') || Is(c, '-')
  }

  /** Whether jsoncpp accepts a decimal text as a number. */
  type Accepts = Bytes -> bool

  function ReadNumber(s: Bytes, i: nat, accepts: Accepts): (r: Option<(Value, nat)>)
    requires i < |s| && StartsNumber(s[i])
    ensures r.Some? ==> i < r.value.1 <= |s| && IsFlat(r.value.0)
  {
    var negative := Is(s[i], '-');
    if negative || Is(s[i], '+') then ReadUnsigned(s, i + 1, negative, accepts) else ReadUnsigned(s, i, negative, accepts)
  }

  function ReadUnsigned(s: Bytes, i: nat, negative: bool, accepts: Accepts): (r: Option<(Value, nat)>)
    requires i <= |s|
    ensures r.Some? ==> i <= r.value.1 <= |s| && IsFlat(r.value.0)
    ensures r.Some? && i < |s| && (Between(s[i], '0', '9') || Is(s[i], '.')) ==> i < r.value.1
  {
    var c, sign := At(s, i), if negative then ['-' as int] else [];
    if Is(c, 'I') || Is(c, 'N') then
      match ReadIdentifier(s, i)
      case None => None
      case Some((name, next)) =>
        if name == Ascii("Infinity") then Some((Infinity(negative), next))
        else if name == Ascii("NaN") then Some((NaN, next))
        else None
    else if Is(c, '.') then AsDecimal(ReadDecimal(s, i, sign + ['0' as int]), accepts)
    else if Is(c, '0') then ReadAfterZero(s, i + 1, negative, sign + ['0' as int], accepts)
    else AsDecimal(ReadDecimal(s, i, sign), accepts)
  }

  function ReadAfterZero(s: Bytes, i: nat, negative: bool, text: Bytes, accepts: Accepts): (r: Option<(Value, nat)>)
    requires i <= |s|
    ensures r.Some? ==> i <= r.value.1 <= |s| && IsFlat(r.value.0)
  {
    var c := At(s, i);
    if Is(c, 'x') || Is(c, 'X') then
      var digit := HexChar(At(s, i + 1));
      if digit == EOF then None
      else
        var (number, next) := ReadHex(s, i + 2, digit);
        Some((Whole(negative, number), next))
    else if !(Between(c, '1', '9') || Is(c, '.') || Is(c, 'e') || Is(c, 'E')) then Some((Whole(false, 0), i))
    else AsDecimal(ReadDecimal(s, i, text), accepts)
  }

  function AsDecimal(r: (Bytes, nat), accepts: Accepts): (q: Option<(Value, nat)>)
    ensures q.Some? ==> q.value.1 == r.1 && IsFlat(q.value.0)
  {
    if accepts(r.0) then Some((Decimal(r.0), r.1)) else None
  }

  // ---- values

  /** Where the next element of an object or array is, behind spaces and at most one comma. */
  function NextElement(s: Bytes, i: nat): (j: nat)
    ensures i <= j
  {
    var j := SkipSpace(s, i);
    if Is(At(s, j), ',') then SkipSpace(s, j + 1) else j
  }

  function ReadKey(s: Bytes, i: nat): (r: Option<(Bytes, nat)>)
    ensures r.Some? ==> i < r.value.1 <= |s|
  {
    if Is(At(s, i), '"') || Is(At(s, i), '\'') then ReadString(s, i) else ReadIdentifier(s, i)
  }

  /** The name of a member, and the position behind its colon. */
  function ReadName(s: Bytes, i: nat): (r: Option<(Bytes, nat)>)
    ensures r.Some? ==> i < r.value.1 <= |s|
  {
    match ReadKey(s, i)
    case None => None
    case Some((key, next)) =>
      var colon := SkipSpace(s, next);
      if Is(At(s, colon), ':') then Some((key, colon + 1)) else None
  }

  function Keyword(name: Bytes): (v: Option<Value>)
    ensures v.Some? ==> IsFlat(v.value)
  {
    if name == Ascii("null") then Some(Null)
    else if name == Ascii("true") then Some(Bool(true))
    else if name == Ascii("false") then Some(Bool(false))
    else if name == Ascii("Infinity") then Some(Infinity(false))
    else if name == Ascii("NaN") then Some(NaN)
    else None
  }

  function ParseValue(s: Bytes, i: nat, depth: int, accepts: Accepts): (r: Option<(Value, nat)>)
    ensures r.Some? ==> i < r.value.1 <= |s|
    decreases Left(s, i), 1
  {
    if depth < 0 then None else
    var j := SkipSpace(s, i);
    var c := At(s, j);
    if c == EOF then None
    else if Is(c, '{') then ParseMembers(s, j + 1, depth - 1, accepts, [])
    else if Is(c, '[') then ParseItems(s, j + 1, depth - 1, accepts, [])
    else if Is(c, '"') || Is(c, '\'') then
      match ReadString(s, j)
      case None => None
      case Some((text, next)) => Some((Text(text), next))
    else if StartsNumber(c) then ReadNumber(s, j, accepts)
    else
      match ReadIdentifier(s, j)
      case None => None
      case Some((name, next)) =>
        match Keyword(name)
        case None => None
        case Some(v) => Some((v, next))
  }

  function ParseMembers(s: Bytes, i: nat, depth: int, accepts: Accepts, done: seq<Member>): (r: Option<(Value, nat)>)
    ensures r.Some? ==> i < r.value.1 <= |s|
    decreases Left(s, i), 0
  {
    var j := NextElement(s, i);
    if At(s, j) == EOF then None
    else if Is(At(s, j), '}') then Some((Object(done), j + 1))
    else
      match ReadName(s, j)
      case None => None
      case Some((key, start)) =>
        match ParseValue(s, start, depth, accepts)
        case None => None
        case Some((v, end)) => ParseMembers(s, end, depth, accepts, done + [Member(key, v)])
  }

  function ParseItems(s: Bytes, i: nat, depth: int, accepts: Accepts, done: seq<Value>): (r: Option<(Value, nat)>)
    ensures r.Some? ==> i < r.value.1 <= |s|
    decreases Left(s, i), 2
  {
    var j := NextElement(s, i);
    if At(s, j) == EOF then None
    else if Is(At(s, j), ']') then Some((List(done), j + 1))
    else
      match ParseValue(s, j, depth, accepts)
      case None => None
      case Some((v, end)) => ParseItems(s, end, depth, accepts, done + [v])
  }

  /** `parse`: one value and nothing but spaces behind it. */
  function Parse(s: Bytes, depth: int, accepts: Accepts): Option<Value> {
    match ParseValue(s, 0, depth, accepts)
    case None => None
    case Some((v, next)) => if At(s, SkipSpace(s, next)) == EOF then Some(v) else None
  }
}
