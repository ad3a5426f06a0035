/** The reader of json5cpp.h, with its window of 128 bytes onto the stream, and the parser on it. */
module Json5Reader {
  import opened Wrappers
  import opened Json5Grammar
  import Bits

  const SIZE := 128

  class Reader {
    const stream: Bytes
    const accepts: Accepts
    const buffer: array<Byte>
    /** How much of the stream was read into the buffer so far. */
    var taken: nat
    var index: nat
    var size: nat
    /** How many bytes were got from the reader. */
    ghost var pos: nat

    /** The window holds the next bytes of the stream; it is behind `index` only past the end. */
    ghost predicate Valid()
      reads this, buffer
    {
      && buffer.Length == SIZE && size <= SIZE && taken <= |stream|
      && if index <= size then
           pos + (size - index) == taken && forall k :: index <= k < size ==> buffer[k] == stream[pos + k - index]
         else
           taken == |stream| && pos == taken + (index - size)
    }

    constructor (stream: Bytes, accepts: Accepts)
      ensures Valid() && fresh(buffer) && pos == 0 && this.stream == stream && this.accepts == accepts
    {
      this.stream, this.accepts := stream, accepts;
      buffer := new Byte[SIZE];
      taken, index, size, pos := 0, 0, 0, 0;
      new;
      Fill();
    }

    /** `istream::read` into the buffer from `size` on. */
    method Read()
      requires Valid() && index == 0
      modifies this`taken, this`size, buffer
      ensures Valid() && (size == SIZE || taken == |stream|) && size >= old(size)
    {
      while size < SIZE && taken < |stream|
        invariant Valid() && size >= old(size)
        decreases |stream| - taken
      {
        buffer[size] := stream[taken];
        size, taken := size + 1, taken + 1;
      }
    }

    /** What is left in the buffer moves to its front and the rest is filled up from the stream. */
    method Fill()
      requires Valid()
      modifies this`taken, this`index, this`size, buffer
      ensures Valid() && (index <= size ==> index == 0 && (size == SIZE || taken == |stream|))
    {
      if index > size {
        return;
      }
      var k := 0;
      ghost var n := size - index;
      while k < size - index
        invariant k <= n == size - index && size == old(size) && index == old(index) && taken == old(taken)
        invariant forall j :: 0 <= j < k ==> buffer[j] == stream[pos + j]
        invariant forall j :: index + k <= j < size ==> buffer[j] == stream[pos + j - index]
      {
        assert buffer[index + k] == stream[pos + k];
        buffer[k] := buffer[index + k];
        k := k + 1;
      }
      size, index := size - index, 0;
      Read();
    }

    /** The byte `n` places ahead, as long as it is less than a window ahead: a farther one is taken
        for the end of the stream. */
    method Peek(n: nat) returns (c: int)
      requires Valid()
      modifies this`taken, this`index, this`size, buffer
      ensures Valid() && c == if n < SIZE then At(stream, pos + n) else EOF
      ensures c != EOF ==> index + n < size
      ensures c == At(stream, pos + n) <==> n < SIZE || pos + n >= |stream|
    {
      if index + n >= size {
        Fill();
      }
      if index + n >= size {
        return EOF;
      }
      return buffer[index + n];
    }

    method Get() returns (c: int)
      requires Valid()
      modifies this, buffer
      ensures Valid() && c == At(stream, old(pos)) && pos == old(pos) + 1
    {
      c := Peek(0);
      index := index + 1;
      pos := pos + 1;
    }
  }

  // ---- white space and comments

  method SkipPastLineTerminator(r: Reader)
    requires r.Valid()
    modifies r, r.buffer
    ensures r.Valid() && r.pos == PastLine(r.stream, old(r.pos))
  {
    while true
      invariant r.Valid() && PastLine(r.stream, r.pos) == PastLine(r.stream, old(r.pos))
      decreases Left(r.stream, r.pos)
    {
      var ch := r.Get();
      if ch == EOF || Is(ch, '\n') || Is(ch, '\r') {
        return;
      }
      var b := r.Peek(0);
      var c := r.Peek(1);
      if IsLineTerminator3(ch, b, c) {
        var _ := r.Get();
        var _ := r.Get();
        return;
      }
    }
  }

  method SkipComment(r: Reader)
    requires r.Valid()
    modifies r, r.buffer
    ensures r.Valid() && r.pos == PastComment(r.stream, old(r.pos))
  {
    var prev := r.Get();
    var ch := r.Get();
    while !(Is(prev, '*') && Is(ch, '/')) && ch != EOF
      invariant r.Valid() && r.pos >= 2 && prev == At(r.stream, r.pos - 2) && ch == At(r.stream, r.pos - 1)
      invariant PastComment(r.stream, r.pos - 2) == PastComment(r.stream, old(r.pos))
      decreases Left(r.stream, r.pos - 1)
    {
      prev := ch;
      ch := r.Get();
    }
  }

  method SkipWhitespace(r: Reader)
    requires r.Valid()
    modifies r, r.buffer
    ensures r.Valid() && r.pos == SkipSpace(r.stream, old(r.pos))
  {
    hide PastLine, PastComment, IsWhite1, IsWhite2, IsWhite3;
    while true
      invariant r.Valid() && SkipSpace(r.stream, r.pos) == SkipSpace(r.stream, old(r.pos))
      decreases Left(r.stream, r.pos)
    {
      var a := r.Peek(0);
      var b := r.Peek(1);
      var c := r.Peek(2);
      if a == EOF {
        return;
      } else if IsWhite1(a) {
        var _ := r.Get();
      } else if IsWhite2(a, b) {
        var _ := r.Get();
        var _ := r.Get();
      } else if IsWhite3(a, b, c) {
        var _ := r.Get();
        var _ := r.Get();
        var _ := r.Get();
      } else if Is(a, '/') && Is(b, '/') {
        var _ := r.Get();
        var _ := r.Get();
        SkipPastLineTerminator(r);
      } else if Is(a, '/') && Is(b, '*') {
        var _ := r.Get();
        var _ := r.Get();
        SkipComment(r);
      } else {
        return;
      }
    }
  }

  // ---- identifiers and strings

  /** The outcome of reading a text: the function's, at the function's position. */
  ghost predicate Outcome<T>(r: Option<(T, nat)>, ok: bool, result: T, pos: nat) {
    match r
    case None => !ok
    case Some((value, next)) => ok && result == value && pos == next
  }

  method Identifier(r: Reader) returns (ok: bool, str: Bytes)
    requires r.Valid()
    modifies r, r.buffer
    ensures r.Valid() && Outcome(ReadIdentifier(r.stream, old(r.pos)), ok, str, r.pos)
  {
    hide IsIdentPart, IsIdentStart;
    ghost var start := r.pos;
    PartsAreThere(r.stream);
    var ch := r.Peek(0);
    if ch < 128 && !IsIdentStart(ch) {
      return false, [];
    }
    ok := true;
    ch := r.Get();
    str := [ch];
    while true
      invariant r.Valid() && start < r.pos <= |r.stream| && str == r.stream[start..r.pos]
      invariant IdentEnd(r.stream, r.pos) == IdentEnd(r.stream, start + 1)
      decreases Left(r.stream, r.pos)
    {
      var a := r.Peek(0);
      var b := r.Peek(1);
      var c := r.Peek(2);
      if !IsIdentPart(a, b, c) {
        break;
      }
      a := r.Get();
      str := str + [a];
    }
  }

  lemma PartsAreThere(s: Bytes)
    ensures forall i: nat, b, c :: IsIdentPart(At(s, i), b, c) ==> i < |s|
    ensures forall i: nat :: IsIdentStart(At(s, i)) ==> i < |s|
  {}

  method FourHex(r: Reader) returns (u: Option<nat>)
    requires r.Valid()
    modifies r, r.buffer
    ensures r.Valid() && r.pos == old(r.pos) + 4 && u == Read4Hex(r.stream, old(r.pos))
  {
    var a := r.Get();
    var b := r.Get();
    var c := r.Get();
    var d := r.Get();
    a, b, c, d := HexChar(a), HexChar(b), HexChar(c), HexChar(d);
    if a == EOF || b == EOF || c == EOF || d == EOF {
      return None;
    }
    u := Some(Bits.Or(Bits.Or(Bits.Or(a * 0x1000, b * 0x100), c * 0x10), d));
  }

  /** The characters a unicode escape adds; none after an error, which the caller ignores. */
  method UnicodeEscape(r: Reader) returns (text: Bytes)
    requires r.Valid()
    modifies r, r.buffer
    ensures r.Valid() && (text, r.pos) == ReadEscape(r.stream, old(r.pos))
  {
    hide Read4Hex, WriteUtf8;
    text := [];
    var u1 := FourHex(r);
    if u1.None? {
      return;
    }
    if 0xD800 <= u1.value <= 0xDBFF {
      var ch := r.Peek(0);
      if !Is(ch, '\\') {
        return;
      }
      ch := r.Get();
      ch := r.Peek(0);
      if !Is(ch, 'u') {
        return;
      }
      ch := r.Get();
      var u2 := FourHex(r);
      if u2.None? || !(0xDC00 <= u2.value <= 0xDFFF) {
        return;
      }
      text := WriteUtf8((u1.value - 0xD800) * 0x400 + u2.value - 0xDC00 + 0x10000);
    } else if !(0xDC00 <= u1.value <= 0xDFFF) {
      text := WriteUtf8(u1.value);
    }
  }

  /** The characters a backslash and what follows it add. */
  method Backslash(r: Reader) returns (ok: bool, text: Bytes)
    requires r.Valid()
    modifies r, r.buffer
    ensures r.Valid() && Outcome(ReadBackslash(r.stream, old(r.pos)), ok, text, r.pos)
  {
    hide ReadEscape;
    ok, text := true, [];
    var ch := r.Get();
    if ch == EOF {
      return false, [];
    } else if Is(ch, 'b') {
      text := [8];
    } else if Is(ch, 'f') {
      text := [12];
    } else if Is(ch, 'n') {
      text := [10];
    } else if Is(ch, 'r') {
      text := [13];
    } else if Is(ch, 't') {
      text := [9];
    } else if Is(ch, 'v') {
      text := [11];
    } else if Is(ch, '0') {
      var next := r.Peek(0);
      text := [if Between(next, '0', '9') then ch else 0];
    } else if Is(ch, 'x') {
      var a := r.Get();
      var b := r.Get();
      a, b := HexChar(a), HexChar(b);
      if a == EOF || b == EOF {
        return false, [];
      }
      text := [Bits.Or(a * 0x10, b) % 0x100];
    } else if Is(ch, 'u') {
      text := UnicodeEscape(r);
    } else {
      text := [ch];
      var next := r.Peek(0);
      if Is(ch, '\r') && Is(next, '\n') {
        next := r.Get();
        text := text + [next];
        assert text == [13, 10];
      }
    }
  }

  lemma BeforeJoins(a: Bytes, b: Bytes, r: Option<(Bytes, nat)>)
    ensures Before(a, Before(b, r)) == Before(a + b, r)
  {
    if r.Some? { assert a + (b + r.value.0) == (a + b) + r.value.0; }
  }

  method StringLiteral(r: Reader) returns (ok: bool, str: Bytes)
    requires r.Valid()
    modifies r, r.buffer
    ensures r.Valid() && Outcome(ReadString(r.stream, old(r.pos)), ok, str, r.pos)
  {
    hide ReadBackslash, Before;
    ghost var s, whole := r.stream, ReadString(r.stream, r.pos);
    var startChar := r.Get();
    str := [];
    NothingBefore(whole);
    while true
      invariant r.Valid() && whole == Before(str, ReadChars(s, r.pos, startChar))
      decreases Left(s, r.pos)
    {
      ghost var p := r.pos;
      var ch := r.Get();
      if ch == EOF {
        NoneBefore(str);
        return false, str;
      } else if ch == startChar {
        EndsBefore(str, r.pos);
        return true, str;
      } else if Is(ch, '\\') {
        var escaped: bool, text: Bytes;
        escaped, text := Backslash(r);
        if !escaped {
          NoneBefore(str);
          return false, str;
        }
        BeforeJoins(str, text, ReadChars(s, r.pos, startChar));
        str := str + text;
      } else if Is(ch, '\n') || Is(ch, '\r') {
        NoneBefore(str);
        return false, str;
      } else {
        BeforeJoins(str, [ch], ReadChars(s, r.pos, startChar));
        str := str + [ch];
      }
    }
  }

  lemma NothingBefore(r: Option<(Bytes, nat)>)
    ensures Before([], r) == r
  {
    if r.Some? { assert [] + r.value.0 == r.value.0; }
  }

  lemma NoneBefore(text: Bytes)
    ensures Before(text, None) == None
  {}

  lemma EndsBefore(text: Bytes, next: nat)
    ensures Before(text, Some(([], next))) == Some((text, next))
  {
    assert text + [] == text;
  }

  // ---- numbers

  method Digits(r: Reader) returns (digits: Bytes)
    requires r.Valid() && r.pos <= |r.stream|
    modifies r, r.buffer
    ensures r.Valid() && r.pos == DigitsEnd(r.stream, old(r.pos)) && digits == r.stream[old(r.pos)..r.pos]
  {
    ghost var start := r.pos;
    digits := [];
    var ch := r.Peek(0);
    while Between(ch, '0', '9')
      invariant r.Valid() && start <= r.pos <= |r.stream| && digits == r.stream[start..r.pos]
      invariant ch == At(r.stream, r.pos) && DigitsEnd(r.stream, r.pos) == DigitsEnd(r.stream, start)
      decreases Left(r.stream, r.pos)
    {
      digits := digits + [ch];
      var _ := r.Get();
      ch := r.Peek(0);
    }
  }

  method HexNumber(r: Reader, digit0: nat) returns (number: nat)
    requires r.Valid() && r.pos <= |r.stream|
    modifies r, r.buffer
    ensures r.Valid() && (number, r.pos) == ReadHex(r.stream, old(r.pos), digit0)
  {
    number := digit0;
    while true
      invariant r.Valid() && r.pos <= |r.stream|
      invariant ReadHex(r.stream, r.pos, number) == ReadHex(r.stream, old(r.pos), digit0)
      decreases Left(r.stream, r.pos)
    {
      var ch := r.Peek(0);
      var digit := HexChar(ch);
      if digit == EOF {
        break;
      }
      number := (number * 16 + digit) % 0x1_0000_0000_0000_0000;
      var _ := r.Get();
    }
  }

  method Fraction(r: Reader, text0: Bytes) returns (text: Bytes)
    requires r.Valid() && r.pos <= |r.stream|
    modifies r, r.buffer
    ensures r.Valid() && (text, r.pos) == ReadFraction(r.stream, old(r.pos), text0)
  {
    hide DigitsEnd;
    text := text0;
    var ch := r.Peek(0);
    if Is(ch, '.') {
      text := text + ['.' as int];
      var _ := r.Get();
      ch := r.Peek(0);
      if !Between(ch, '0', '9') {
        text := text + ['0' as int];
      }
    }
    var digits := Digits(r);
    text := text + digits;
  }

  method Exponent(r: Reader, text0: Bytes) returns (text: Bytes)
    requires r.Valid() && r.pos <= |r.stream|
    modifies r, r.buffer
    ensures r.Valid() && (text, r.pos) == ReadExponent(r.stream, old(r.pos), text0)
  {
    hide DigitsEnd;
    text := text0;
    var ch := r.Peek(0);
    if Is(ch, 'e') || Is(ch, 'E') {
      text := text + ['e' as int];
      var _ := r.Get();
      ch := r.Peek(0);
      if Is(ch, '+') || Is(ch, '-') {
        text := text + [ch];
        var _ := r.Get();
      }
      var digits := Digits(r);
      text := text + digits;
    }
  }

  /** The rest of a decimal number, put into the form JSON allows. */
  method DecimalText(r: Reader, text0: Bytes) returns (text: Bytes)
    requires r.Valid() && r.pos <= |r.stream|
    modifies r, r.buffer
    ensures r.Valid() && (text, r.pos) == ReadDecimal(r.stream, old(r.pos), text0)
  {
    hide DigitsEnd, ReadFraction, ReadExponent;
    var digits := Digits(r);
    text := Fraction(r, text0 + digits);
    text := Exponent(r, text);
  }

  /** What follows a first zero: a hexadecimal number, nothing, or a decimal number. */
  method AfterZero(r: Reader, negative: bool, text: Bytes) returns (ok: bool, v: Value)
    requires r.Valid() && r.pos <= |r.stream|
    modifies r, r.buffer
    ensures r.Valid() && Outcome(ReadAfterZero(r.stream, old(r.pos), negative, text, r.accepts), ok, v, r.pos)
  {
    hide ReadDecimal, ReadHex, HexChar;
    var ch := r.Peek(0);
    if Is(ch, 'x') || Is(ch, 'X') {
      var _ := r.Get();
      ch := r.Peek(0);
      var digit := HexChar(ch);
      if digit == EOF {
        return false, Null;
      }
      var _ := r.Get();
      var number := HexNumber(r, digit);
      return true, Whole(negative, number);
    } else if !(Between(ch, '1', '9') || Is(ch, '.') || Is(ch, 'e') || Is(ch, 'E')) {
      return true, Whole(false, 0);
    }
    var str := DecimalText(r, text);
    return r.accepts(str), Decimal(str);
  }

  method Unsigned(r: Reader, negative: bool) returns (ok: bool, v: Value)
    requires r.Valid() && r.pos <= |r.stream|
    modifies r, r.buffer
    ensures r.Valid() && Outcome(ReadUnsigned(r.stream, old(r.pos), negative, r.accepts), ok, v, r.pos)
  {
    hide ReadIdentifier, ReadDecimal, ReadAfterZero, Ascii;
    var str: Bytes := if negative then ['-' as int] else [];
    var ch := r.Peek(0);
    if Is(ch, 'I') || Is(ch, 'N') {
      var named: bool, name: Bytes;
      named, name := Identifier(r);
      if named && name == Ascii("Infinity") {
        return true, Infinity(negative);
      } else if named && name == Ascii("NaN") {
        return true, NaN;
      }
      return false, Null;
    } else if Is(ch, '.') {
      str := str + ['0' as int];
    } else if Is(ch, '0') {
      var _ := r.Get();
      ok, v := AfterZero(r, negative, str + ['0' as int]);
      return;
    }
    str := DecimalText(r, str);
    return r.accepts(str), Decimal(str);
  }

  method ParseNumber(r: Reader) returns (ok: bool, v: Value)
    requires r.Valid() && r.pos < |r.stream| && StartsNumber(r.stream[r.pos])
    modifies r, r.buffer
    ensures r.Valid() && Outcome(ReadNumber(r.stream, old(r.pos), r.accepts), ok, v, r.pos)
  {
    hide ReadUnsigned;
    var negative := false;
    var ch := r.Peek(0);
    if Is(ch, '+') {
      var _ := r.Get();
    } else if Is(ch, '-') {
      negative := true;
      var _ := r.Get();
    }
    ok, v := Unsigned(r, negative);
  }

  // ---- values

  method Element(r: Reader) returns (ch: int)
    requires r.Valid()
    modifies r, r.buffer
    ensures r.Valid() && r.pos == NextElement(r.stream, old(r.pos)) && ch == At(r.stream, r.pos)
  {
    hide SkipSpace;
    SkipWhitespace(r);
    ch := r.Peek(0);
    if Is(ch, ',') {
      var _ := r.Get();
      SkipWhitespace(r);
      ch := r.Peek(0);
    }
  }

  /** The name of a member and the colon behind it. */
  method MemberName(r: Reader, ch: int) returns (ok: bool, key: Bytes)
    requires r.Valid() && ch == At(r.stream, r.pos)
    modifies r, r.buffer
    ensures r.Valid() && Outcome(ReadName(r.stream, old(r.pos)), ok, key, r.pos)
  {
    hide SkipSpace, ReadString, ReadIdentifier;
    if Is(ch, '"') || Is(ch, '\'') {
      ok, key := StringLiteral(r);
    } else {
      ok, key := Identifier(r);
    }
    if !ok {
      return;
    }
    SkipWhitespace(r);
    var colon := r.Peek(0);
    if !Is(colon, ':') {
      return false, key;
    }
    var _ := r.Get();
  }

  method ParseAny(r: Reader, maxDepth: int) returns (ok: bool, v: Value)
    requires r.Valid()
    modifies r, r.buffer
    ensures r.Valid() && Outcome(ParseValue(r.stream, old(r.pos), maxDepth, r.accepts), ok, v, r.pos)
    decreases Left(r.stream, r.pos), 1
  {
    hide SkipSpace, ReadString, ReadIdentifier, ReadNumber, Keyword;
    if maxDepth < 0 {
      return false, Null;
    }
    SkipWhitespace(r);
    var ch := r.Peek(0);
    if ch == EOF {
      return false, Null;
    } else if Is(ch, '{') {
      ok, v := ParseObject(r, maxDepth - 1);
    } else if Is(ch, '[') {
      ok, v := ParseArray(r, maxDepth - 1);
    } else if Is(ch, '"') || Is(ch, '\'') {
      var str: Bytes;
      ok, str := StringLiteral(r);
      v := Text(str);
    } else if StartsNumber(ch) {
      ok, v := ParseNumber(r);
    } else {
      var ident: Bytes;
      ok, ident := Identifier(r);
      v := Null;
      if ok {
        var keyword := Keyword(ident);
        if keyword.None? {
          return false, Null;
        }
        v := keyword.value;
      }
    }
  }

  method ParseObject(r: Reader, maxDepth: int) returns (ok: bool, v: Value)
    requires r.Valid() && r.pos < |r.stream|
    modifies r, r.buffer
    ensures r.Valid() && Outcome(ParseMembers(r.stream, old(r.pos) + 1, maxDepth, r.accepts, []), ok, v, r.pos)
    decreases Left(r.stream, r.pos), 0
  {
    hide NextElement, ReadName, ParseValue;
    var _ := r.Get();
    var members: seq<Member> := [];
    while true
      invariant r.Valid() && old(r.pos) < r.pos <= |r.stream|
      invariant ParseMembers(r.stream, r.pos, maxDepth, r.accepts, members)
             == ParseMembers(r.stream, old(r.pos) + 1, maxDepth, r.accepts, [])
      decreases Left(r.stream, r.pos)
    {
      var ch := Element(r);
      if ch == EOF {
        return false, Null;
      }
      if Is(ch, '}') {
        var _ := r.Get();
        return true, Object(members);
      }
      var key: Bytes, value: Value;
      ok, key := MemberName(r, ch);
      if !ok {
        return false, Null;
      }
      ok, value := ParseAny(r, maxDepth);
      if !ok {
        return false, Null;
      }
      members := members + [Member(key, value)];
    }
  }

  method ParseArray(r: Reader, maxDepth: int) returns (ok: bool, v: Value)
    requires r.Valid() && r.pos < |r.stream|
    modifies r, r.buffer
    ensures r.Valid() && Outcome(ParseItems(r.stream, old(r.pos) + 1, maxDepth, r.accepts, []), ok, v, r.pos)
    decreases Left(r.stream, r.pos), 0
  {
    hide NextElement, ParseValue;
    var _ := r.Get();
    var items: seq<Value> := [];
    while true
      invariant r.Valid() && old(r.pos) < r.pos <= |r.stream|
      invariant ParseItems(r.stream, r.pos, maxDepth, r.accepts, items)
             == ParseItems(r.stream, old(r.pos) + 1, maxDepth, r.accepts, [])
      decreases Left(r.stream, r.pos)
    {
      var ch := Element(r);
      if ch == EOF {
        return false, Null;
      }
      if Is(ch, ']') {
        var _ := r.Get();
        return true, List(items);
      }
      var value: Value;
      ok, value := ParseAny(r, maxDepth);
      if !ok {
        return false, Null;
      }
      items := items + [value];
    }
  }

  /** `parse`. */
  method ParseDocument(stream: Bytes, accepts: Accepts, maxDepth: int) returns (v: Option<Value>)
    ensures v == Parse(stream, maxDepth, accepts)
  {
    hide SkipSpace, ParseValue;
    var r := new Reader(stream, accepts);
    var ok: bool, value: Value;
    ok, value := ParseAny(r, maxDepth);
    if !ok {
      return None;
    }
    SkipWhitespace(r);
    var ch := r.Peek(0);
    return if ch == EOF then Some(value) else None;
  }
}
