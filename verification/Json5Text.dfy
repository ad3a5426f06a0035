/** JSON5 text as it may be written: the language that json5cpp.h reads, and the values its texts stand for. */
module Json5Text {
  import opened Wrappers
  import opened Json5Grammar
  import opened Json5Laws

  // ---- white space and comments

  /** The code points that count as white space or line terminators. */
  predicate WhitePoint(u: int) {
    || 9 <= u <= 13 || u == 0x20 || u == 0xA0 || u == 0x1680 || 0x2000 <= u <= 0x200A
    || u == 0x2028 || u == 0x2029 || u == 0x202F || u == 0x205F || u == 0x3000 || u == 0xFEFF
  }

  predicate WhiteCharacter(t: Bytes) {
    Utf8Form(t) && WhitePoint(Utf8Value(t))
  }

  predicate StartsWhite(t: Bytes) {
    || (|t| >= 1 && WhiteCharacter(t[..1]))
    || (|t| >= 2 && WhiteCharacter(t[..2]))
    || (|t| >= 3 && WhiteCharacter(t[..3]))
  }

  /** Line feed, carriage return, line separator, paragraph separator. */
  predicate LineEnd(t: Bytes) {
    t == [10] || t == [13] || t == [0xE2, 0x80, 0xA8] || t == [0xE2, 0x80, 0xA9]
  }

  predicate StartsLineEnd(t: Bytes) {
    (|t| >= 1 && LineEnd(t[..1])) || (|t| >= 3 && LineEnd(t[..3]))
  }

  datatype Blank =
    | White(character: Bytes)
    | LineComment(text: Bytes, end: Bytes)
    | BlockComment(text: Bytes)

  type Gap = seq<Blank>

  const SLASHES: Bytes := ['/' as int, '/' as int]
  const OPENS: Bytes := ['/' as int, '*' as int]
  const CLOSES: Bytes := ['*' as int, '/' as int]

  function WriteBlank(b: Blank): Bytes {
    match b
    case White(character) => character
    case LineComment(text, end) => SLASHES + (text + end)
    case BlockComment(text) => OPENS + (text + CLOSES)
  }

  ghost predicate GoodBlank(b: Blank) {
    match b
    case White(character) => WhiteCharacter(character)
    case LineComment(text, end) => LineEnd(end) && forall k :: 0 <= k < |text| ==> !StartsLineEnd(text[k..])
    case BlockComment(text) => forall k :: 0 <= k < |text| ==> !(CLOSES <= text[k..])
  }

  function WriteGap(gap: Gap): Bytes {
    if gap == [] then [] else WriteBlank(gap[0]) + WriteGap(gap[1..])
  }

  ghost predicate GoodGap(gap: Gap) {
    forall b :: b in gap ==> GoodBlank(b)
  }

  /** No blank goes on here. */
  predicate Firm(rest: Bytes) {
    !StartsWhite(rest) && !(SLASHES <= rest) && !(OPENS <= rest)
  }

  // ---- names

  /** A name goes on here: a letter, digit, `$`, `_` or backslash, or anything beyond ASCII that is not white. */
  predicate NamePart(t: Bytes) {
    t != [] &&
    (Between(t[0], 'a', 'z') || Between(t[0], 'A', 'Z') || Between(t[0], '0', '9')
     || t[0] in {'$' as int, '_' as int, '\\' as int} || (t[0] >= 128 && !StartsWhite(t)))
  }

  /** The text is a whole name in front of `rest`. */
  ghost predicate NameBefore(name: Bytes, rest: Bytes) {
    && name != [] && !Between(name[0], '0', '9') && !NamePart(rest)
    && forall k :: 0 <= k < |name| ==> NamePart(name[k..] + rest)
  }

  // ---- strings

  /** A broken escape is a bad one, with as many bytes as the reader takes for it and the text it makes of them. */
  datatype Piece =
    | Plain(c: Byte)
    | Escaped(c: Byte)
    | Nul
    | ZeroDigit
    | ReturnFeed
    | HexPair(a: Byte, b: Byte)
    | Unicode(digits: Bytes)
    | Surrogates(high: Bytes, low: Bytes)
    | Broken(taken: Bytes, text: Bytes)

  const BACKSLASH: Byte := '\\' as int

  function WritePiece(p: Piece): Bytes {
    match p
    case Plain(c) => [c]
    case Escaped(c) => [BACKSLASH, c]
    case Nul => [BACKSLASH, '0' as int]
    case ZeroDigit => [BACKSLASH, '0' as int]
    case ReturnFeed => [BACKSLASH, 13, 10]
    case HexPair(a, b) => [BACKSLASH, 'x' as int, a, b]
    case Unicode(digits) => [BACKSLASH, 'u' as int] + digits
    case Surrogates(high, low) => [BACKSLASH, 'u' as int] + (high + ([BACKSLASH, 'u' as int] + low))
    case Broken(taken, _) => [BACKSLASH] + taken
  }

  function DigitValue(c: int): nat {
    if Between(c, '0', '9') then c - '0' as int
    else if Between(c, 'a', 'f') then c - 'a' as int + 10
    else if Between(c, 'A', 'Z') then c - 'A' as int + 10
    else 0
  }

  /** The number that hexadecimal digits stand for. */
  function HexValue(digits: Bytes): nat {
    if digits == [] then 0 else HexValue(digits[..|digits| - 1]) * 16 + DigitValue(digits[|digits| - 1])
  }

  /** What the code takes for digits of a hexadecimal number: those, and the other capital letters. */
  predicate LooseDigits(t: Bytes) {
    forall k :: 0 <= k < |t| ==> IsHexDigit(t[k]) || Between(t[k], 'G', 'Z')
  }

  predicate HexDigits(t: Bytes) {
    forall k :: 0 <= k < |t| ==> IsHexDigit(t[k])
  }

  function PairedValue(high: nat, low: nat): nat {
    if high < 0xD800 || low < 0xDC00 then 0 else 0x10000 + (high - 0xD800) * 0x400 + (low - 0xDC00)
  }

  /** The text of a piece. Of an escaped character it is the character, but for six letters. */
  function PieceText(p: Piece): Bytes {
    match p
    case Plain(c) => [c]
    case Escaped(c) =>
      if c == 'b' as int then [8] else if c == 't' as int then [9] else if c == 'n' as int then [10]
      else if c == 'v' as int then [11] else if c == 'f' as int then [12] else if c == 'r' as int then [13]
      else [c]
    case Nul => [0]
    case ZeroDigit => ['0' as int]
    case ReturnFeed => [13, 10]
    case HexPair(a, b) => [(DigitValue(a) * 16 + DigitValue(b)) % 0x100]
    case Unicode(digits) => WriteUtf8(HexValue(digits))
    case Surrogates(high, low) => WriteUtf8(PairedValue(HexValue(high), HexValue(low)))
    case Broken(_, text) => text
  }

  predicate StartsDigit(rest: Bytes) {
    rest != [] && Between(rest[0], '0', '9')
  }

  /** Whether the piece is one in front of `rest`. */
  predicate GoodPiece(p: Piece, quote: Byte, rest: Bytes) {
    match p
    case Plain(c) => c != quote && c != BACKSLASH && c != 10 && c != 13
    case Escaped(c) =>
      c !in {'0' as int, 'x' as int, 'u' as int} && !(c == 13 && rest != [] && rest[0] == 10)
    case Nul => !StartsDigit(rest)
    case ZeroDigit => StartsDigit(rest)
    case ReturnFeed => true
    case HexPair(a, b) => IsHexDigit(a) && IsHexDigit(b)
    case Unicode(digits) => |digits| == 4 && HexDigits(digits) && !(0xD800 <= HexValue(digits) <= 0xDFFF)
    case Surrogates(high, low) =>
      && |high| == 4 && HexDigits(high) && 0xD800 <= HexValue(high) <= 0xDBFF
      && |low| == 4 && HexDigits(low) && 0xDC00 <= HexValue(low) <= 0xDFFF
    case Broken(taken, text) => BadEscape(taken + rest, 0) && ReadBackslash(taken + rest, 0) == Some((text, |taken|))
  }

  function WritePieces(pieces: seq<Piece>, quote: Byte): Bytes {
    if pieces == [] then [quote] else WritePiece(pieces[0]) + WritePieces(pieces[1..], quote)
  }

  predicate GoodPieces(pieces: seq<Piece>, quote: Byte, rest: Bytes) {
    pieces == [] || (GoodPiece(pieces[0], quote, WritePieces(pieces[1..], quote) + rest) && GoodPieces(pieces[1..], quote, rest))
  }

  function PiecesText(pieces: seq<Piece>): Bytes {
    if pieces == [] then [] else PieceText(pieces[0]) + PiecesText(pieces[1..])
  }

  predicate IsQuote(c: Byte) {
    c == '"' as int || c == '\'' as int
  }

  // ---- numbers

  datatype Exponent = Exponent(mark: Byte, sign: Bytes, digits: Bytes)

  datatype Number =
    | Hexadecimal(sign: Bytes, x: Byte, digits: Bytes)
    | Zero(sign: Bytes)
    | Written(sign: Bytes, whole: Bytes, point: bool, fraction: Bytes, exponent: Option<Exponent>)
    | Unbounded(sign: Bytes)
    | NoNumber(sign: Bytes)

  const MINUS: Bytes := ['-' as int]
  const INFINITY: Bytes := ['I' as int, 'n' as int, 'f' as int, 'i' as int, 'n' as int, 'i' as int, 't' as int, 'y' as int]
  const NAN: Bytes := ['N' as int, 'a' as int, 'N' as int]

  predicate IsSign(t: Bytes) {
    t == [] || t == ['+' as int] || t == MINUS
  }

  predicate Digits(t: Bytes) {
    forall k :: 0 <= k < |t| ==> Between(t[k], '0', '9')
  }

  function WriteExponent(e: Option<Exponent>): Bytes {
    if e.None? then [] else [e.value.mark] + (e.value.sign + e.value.digits)
  }

  function WriteNumber(n: Number): Bytes {
    n.sign +
    match n
    case Hexadecimal(_, x, digits) => ['0' as int, x] + digits
    case Zero(_) => ['0' as int]
    case Written(_, whole, point, fraction, exponent) =>
      whole + ((if point then ['.' as int] else []) + (fraction + WriteExponent(exponent)))
    case Unbounded(_) => INFINITY
    case NoNumber(_) => NAN
  }

  /** The number in the form JSON has: no plus in front, a digit on either side of the point. */
  function Normal(n: Number): Bytes
    requires n.Written?
  {
    (if n.sign == MINUS then MINUS else [])
    + (if n.point && n.whole == [] then ['0' as int] else n.whole)
    + (if !n.point then [] else ['.' as int] + if n.fraction == [] then ['0' as int] else n.fraction)
    + (if n.exponent.None? then [] else ['e' as int] + (n.exponent.value.sign + n.exponent.value.digits))
  }

  function NumberValue(n: Number): Value {
    match n
    case Hexadecimal(sign, _, digits) => Whole(sign == MINUS, HexValue(digits) % 0x1_0000_0000_0000_0000)
    case Zero(_) => Whole(false, 0)
    case Written(_, _, _, _, _) => Decimal(Normal(n))
    case Unbounded(sign) => Infinity(sign == MINUS)
    case NoNumber(_) => NaN
  }

  predicate NextIn(rest: Bytes, set_: set<int>) {
    rest != [] && rest[0] in set_
  }

  /** A zero in front stands alone, or before a point, an exponent or another digit than zero. */
  predicate GoodWhole(n: Number)
    requires n.Written?
  {
    && Digits(n.whole) && Digits(n.fraction) && (!n.point ==> n.fraction == [])
    && (n.whole != [] || n.point || n.sign != [])
    && (n.whole != [] && n.whole[0] == '0' as int ==>
          if |n.whole| == 1 then n.point || n.exponent.Some? else n.whole[1] != '0' as int)
  }

  predicate GoodExponent(e: Option<Exponent>) {
    e.Some? ==> (e.value.mark == 'e' as int || e.value.mark == 'E' as int) && IsSign(e.value.sign) && Digits(e.value.digits)
  }

  /** Whether the number is one, and does not go on in `rest`. */
  ghost predicate NumberFits(n: Number, rest: Bytes) {
    IsSign(n.sign) &&
    match n
    case Hexadecimal(_, x, digits) =>
      && (x == 'x' as int || x == 'X' as int) && digits != [] && LooseDigits(digits)
      && !(rest != [] && (IsHexDigit(rest[0]) || Between(rest[0], 'G', 'Z')))
    case Zero(_) =>
      !NextIn(rest, {'x' as int, 'X' as int, '.' as int, 'e' as int, 'E' as int}) && !(rest != [] && Between(rest[0], '1', '9'))
    case Written(sign, whole, point, fraction, exponent) =>
      && GoodWhole(n) && GoodExponent(exponent) && !StartsDigit(rest)
      && (exponent.None? ==> !NextIn(rest, {'e' as int, 'E' as int}))
      && (exponent.None? && !point ==> !NextIn(rest, {'.' as int}))
      && (exponent.None? && !point && whole == [] ==> !NextIn(rest, {'I' as int, 'N' as int}))
      && (exponent.Some? && exponent.value.sign == [] && exponent.value.digits == [] ==> !NextIn(rest, {'+' as int, '-' as int}))
    case Unbounded(sign) => sign != [] && !NamePart(rest)
    case NoNumber(sign) => sign != [] && !NamePart(rest)
  }

  ghost predicate GoodNumber(n: Number, rest: Bytes, accepts: Accepts) {
    NumberFits(n, rest) && (n.Written? ==> accepts(Normal(n)))
  }

  // ---- values

  datatype Key = Bare(name: Bytes) | Quoted(quote: Byte, pieces: seq<Piece>)

  /** What stands in front of an element or the closing bracket: blanks, and perhaps a comma and more blanks. */
  datatype Separator = Separator(before: Gap, comma: bool, after: Gap)

  datatype Syntax =
    | Word(value: Value)
    | Quotation(quote: Byte, pieces: seq<Piece>)
    | Numeral(number: Number)
    | Brackets(items: Items)
    | Braces(members: Members)

  datatype Items = LastItem(end: Separator) | NextItem(front: Separator, value: Syntax, more: Items)

  datatype Members =
    | LastMember(end: Separator)
    | NextMember(front: Separator, key: Key, beforeColon: Gap, afterColon: Gap, value: Syntax, more: Members)

  function WriteWord(v: Value): Bytes {
    match v
    case Null => ['n' as int, 'u' as int, 'l' as int, 'l' as int]
    case Bool(true) => ['t' as int, 'r' as int, 'u' as int, 'e' as int]
    case Bool(false) => ['f' as int, 'a' as int, 'l' as int, 's' as int, 'e' as int]
    case Infinity(_) => INFINITY
    case _ => NAN
  }

  predicate IsWord(v: Value) {
    v in {Null, Bool(true), Bool(false), Infinity(false), NaN}
  }

  function WriteSeparator(p: Separator): Bytes {
    WriteGap(p.before) + if p.comma then [',' as int] + WriteGap(p.after) else []
  }

  ghost predicate GoodSeparator(p: Separator) {
    GoodGap(p.before) && GoodGap(p.after) && (!p.comma ==> p.after == [])
  }

  function WriteKey(key: Key): Bytes {
    match key
    case Bare(name) => name
    case Quoted(quote, pieces) => [quote] + WritePieces(pieces, quote)
  }

  function KeyText(key: Key): Bytes {
    match key
    case Bare(name) => name
    case Quoted(_, pieces) => PiecesText(pieces)
  }

  ghost predicate GoodKey(key: Key, rest: Bytes) {
    match key
    case Bare(name) => NameBefore(name, rest)
    case Quoted(quote, pieces) => IsQuote(quote) && GoodPieces(pieces, quote, rest)
  }

  function Write(x: Syntax): Bytes {
    match x
    case Word(v) => WriteWord(v)
    case Quotation(quote, pieces) => [quote] + WritePieces(pieces, quote)
    case Numeral(n) => WriteNumber(n)
    case Brackets(items) => ['[' as int] + WriteItems(items)
    case Braces(members) => ['{' as int] + WriteMembers(members)
  }

  function WriteItems(items: Items): Bytes {
    match items
    case LastItem(end) => WriteSeparator(end) + [']' as int]
    case NextItem(front, value, more) => WriteSeparator(front) + (Write(value) + WriteItems(more))
  }

  function WriteMembers(members: Members): Bytes {
    match members
    case LastMember(end) => WriteSeparator(end) + ['}' as int]
    case NextMember(front, key, beforeColon, afterColon, value, more) =>
      WriteSeparator(front) + (WriteKey(key) + WriteAfterKey(beforeColon, afterColon, Write(value) + WriteMembers(more)))
  }

  function WriteAfterKey(beforeColon: Gap, afterColon: Gap, rest: Bytes): Bytes {
    WriteGap(beforeColon) + ([':' as int] + (WriteGap(afterColon) + rest))
  }

  function Meaning(x: Syntax): Value {
    match x
    case Word(v) => v
    case Quotation(_, pieces) => Text(PiecesText(pieces))
    case Numeral(n) => NumberValue(n)
    case Brackets(items) => List(ItemValues(items))
    case Braces(members) => Object(MemberValues(members))
  }

  function ItemValues(items: Items): seq<Value> {
    match items
    case LastItem(_) => []
    case NextItem(_, value, more) => [Meaning(value)] + ItemValues(more)
  }

  function MemberValues(members: Members): seq<Member> {
    match members
    case LastMember(_) => []
    case NextMember(_, key, _, _, value, more) => [Member(KeyText(key), Meaning(value))] + MemberValues(more)
  }

  /** Whether the text of `x` is to be read so in front of `rest`. */
  ghost predicate Good(x: Syntax, rest: Bytes, accepts: Accepts) {
    match x
    case Word(v) => IsWord(v) && !NamePart(rest)
    case Quotation(quote, pieces) => IsQuote(quote) && GoodPieces(pieces, quote, rest)
    case Numeral(n) => GoodNumber(n, rest, accepts)
    case Brackets(items) => GoodItems(items, rest, accepts)
    case Braces(members) => GoodMembers(members, rest, accepts)
  }

  ghost predicate GoodItems(items: Items, rest: Bytes, accepts: Accepts) {
    match items
    case LastItem(end) => GoodSeparator(end)
    case NextItem(front, value, more) =>
      GoodSeparator(front) && Good(value, WriteItems(more) + rest, accepts) && GoodItems(more, rest, accepts)
  }

  ghost predicate GoodMembers(members: Members, rest: Bytes, accepts: Accepts) {
    match members
    case LastMember(end) => GoodSeparator(end)
    case NextMember(front, key, beforeColon, afterColon, value, more) =>
      && GoodSeparator(front) && GoodKey(key, WriteAfterKey(beforeColon, afterColon, Write(value) + (WriteMembers(more) + rest))) && GoodGap(beforeColon)
      && GoodGap(afterColon) && Good(value, WriteMembers(more) + rest, accepts) && GoodMembers(more, rest, accepts)
  }

  // ---- documents

  /** A comment that the end of the text cuts off is passed over as well. */
  datatype Tail = NoTail | OpenLine(text: Bytes) | OpenBlock(text: Bytes)

  function WriteTail(tail: Tail): Bytes {
    match tail
    case NoTail => []
    case OpenLine(text) => SLASHES + text
    case OpenBlock(text) => OPENS + text
  }

  ghost predicate GoodTail(tail: Tail) {
    match tail
    case NoTail => true
    case OpenLine(text) => forall k :: 0 <= k < |text| ==> !StartsLineEnd(text[k..])
    case OpenBlock(text) => forall k :: 0 <= k < |text| ==> !(CLOSES <= text[k..])
  }

  datatype Document = Document(front: Gap, value: Syntax, behind: Gap, tail: Tail)

  function WriteDocument(d: Document): Bytes {
    WriteGap(d.front) + (Write(d.value) + (WriteGap(d.behind) + WriteTail(d.tail)))
  }

  ghost predicate GoodDocument(d: Document, accepts: Accepts) {
    GoodGap(d.front) && Good(d.value, WriteGap(d.behind) + WriteTail(d.tail), accepts) && GoodGap(d.behind) && GoodTail(d.tail)
  }
}
