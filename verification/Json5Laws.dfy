/** What holds of every parse. */
module Json5Laws {
  import opened Wrappers
  import opened Json5Grammar
  import Bits

  // ---- the depth limit

  /** How deep a value is nested: an element lies one level below its list or object. */
  function Height(v: Value): (h: nat)
    decreases v
  {
    match v
    case List(items) => ListHeight(items)
    case Object(members) => ObjectHeight(members)
    case _ => 0
  }

  function ListHeight(items: seq<Value>): nat
    decreases items
  {
    if items == [] then 0 else Max(1 + Height(items[|items| - 1]), ListHeight(items[..|items| - 1]))
  }

  function ObjectHeight(members: seq<Member>): nat
    decreases members
  {
    if members == [] then 0 else Max(1 + Height(members[|members| - 1].value), ObjectHeight(members[..|members| - 1]))
  }

  function Max(a: nat, b: nat): nat {
    if a < b then b else a
  }

  /** A result under a depth limit. */
  function Limited(r: Option<(Value, nat)>, depth: int): Option<(Value, nat)> {
    match r
    case None => None
    case Some((v, next)) => if Height(v) <= depth then Some((v, next)) else None
  }

  /** The limit refuses exactly the values that are nested deeper, and changes no other result. */
  lemma {:induction false} DepthIsExact(s: Bytes, i: nat, d: int, e: int, accepts: Accepts)
    requires d <= e
    ensures ParseValue(s, i, d, accepts) == Limited(ParseValue(s, i, e, accepts), d)
    decreases Left(s, i), 1
  {
    hide SkipSpace, ReadString, ReadIdentifier, ReadNumber, Keyword;
    if d >= 0 {
      var j := SkipSpace(s, i);
      var c := At(s, j);
      if Is(c, '{') {
        MembersDepth(s, j + 1, d - 1, e - 1, accepts, []);
      } else if Is(c, '[') {
        ItemsDepth(s, j + 1, d - 1, e - 1, accepts, []);
      }
    }
  }

  lemma OneMoreItem(done: seq<Value>, v: Value)
    ensures ListHeight(done + [v]) == Max(1 + Height(v), ListHeight(done))
  {
    assert (done + [v])[..|done|] == done;
  }

  lemma OneMoreMember(done: seq<Member>, m: Member)
    ensures ObjectHeight(done + [m]) == Max(1 + Height(m.value), ObjectHeight(done))
  {
    assert (done + [m])[..|done|] == done;
  }

  lemma NestedHeight(items: seq<Value>)
    ensures Height(List(items)) == ListHeight(items)
  {}

  lemma NestedMembers(members: seq<Member>)
    ensures Height(Object(members)) == ObjectHeight(members)
  {}

  lemma {:induction false} ItemsDepth(s: Bytes, i: nat, d: int, e: int, accepts: Accepts, done: seq<Value>)
    requires d <= e && -1 <= d && ListHeight(done) <= d + 1
    ensures ParseItems(s, i, d, accepts, done) == Limited(ParseItems(s, i, e, accepts, done), d + 1)
    decreases Left(s, i), 2
  {
    hide NextElement, ParseValue, Height, ListHeight;
    NestedHeight(done);
    var j := NextElement(s, i);
    if At(s, j) != EOF && !Is(At(s, j), ']') {
      DepthIsExact(s, j, d, e, accepts);
      match ParseValue(s, j, e, accepts)
      case None =>
      case Some((v, end)) =>
        var more := done + [v];
        OneMoreItem(done, v);
        if Height(v) <= d {
          ItemsDepth(s, end, d, e, accepts, more);
        } else {
          ItemsGrow(s, end, e, accepts, more);
        }
    }
  }

  /** Elements read stay in the list. */
  lemma {:induction false} ItemsGrow(s: Bytes, i: nat, e: int, accepts: Accepts, done: seq<Value>)
    ensures var r := ParseItems(s, i, e, accepts, done);
            r.Some? ==> Height(r.value.0) >= ListHeight(done)
    decreases Left(s, i), 2
  {
    hide NextElement, ParseValue, Height, ListHeight;
    NestedHeight(done);
    var j := NextElement(s, i);
    if At(s, j) != EOF && !Is(At(s, j), ']') {
      match ParseValue(s, j, e, accepts)
      case None =>
      case Some((v, end)) =>
        OneMoreItem(done, v);
        ItemsGrow(s, end, e, accepts, done + [v]);
    }
  }

  lemma {:induction false} MembersDepth(s: Bytes, i: nat, d: int, e: int, accepts: Accepts, done: seq<Member>)
    requires d <= e && -1 <= d && ObjectHeight(done) <= d + 1
    ensures ParseMembers(s, i, d, accepts, done) == Limited(ParseMembers(s, i, e, accepts, done), d + 1)
    decreases Left(s, i), 0
  {
    hide NextElement, ReadName, ParseValue, Height, ObjectHeight;
    NestedMembers(done);
    var j := NextElement(s, i);
    if At(s, j) != EOF && !Is(At(s, j), '}') {
      var name := ReadName(s, j);
      if name.Some? {
        DepthIsExact(s, name.value.1, d, e, accepts);
        match ParseValue(s, name.value.1, e, accepts)
        case None =>
        case Some((v, end)) =>
          var more := done + [Member(name.value.0, v)];
          OneMoreMember(done, Member(name.value.0, v));
          if Height(v) <= d {
            MembersDepth(s, end, d, e, accepts, more);
          } else {
            MembersGrow(s, end, e, accepts, more);
          }
      }
    }
  }

  lemma {:induction false} MembersGrow(s: Bytes, i: nat, e: int, accepts: Accepts, done: seq<Member>)
    ensures var r := ParseMembers(s, i, e, accepts, done);
            r.Some? ==> Height(r.value.0) >= ObjectHeight(done)
    decreases Left(s, i), 0
  {
    hide NextElement, ReadName, ParseValue, Height, ObjectHeight;
    NestedMembers(done);
    var j := NextElement(s, i);
    if At(s, j) != EOF && !Is(At(s, j), '}') {
      var name := ReadName(s, j);
      if name.Some? {
        match ParseValue(s, name.value.1, e, accepts)
        case None =>
        case Some((v, end)) =>
          OneMoreMember(done, Member(name.value.0, v));
          MembersGrow(s, end, e, accepts, done + [Member(name.value.0, v)]);
      }
    }
  }

  /** `parse` accepts a document under a limit exactly when it does under a higher one and the value
      is nested no deeper than the limit. */
  lemma ParseDepthIsExact(s: Bytes, d: int, e: int, accepts: Accepts)
    requires d <= e
    ensures var high := Parse(s, e, accepts);
            Parse(s, d, accepts) == if high.Some? && Height(high.value) <= d then high else None
  {
    DepthIsExact(s, 0, d, e, accepts);
  }

  // ---- escapes

  /** The value of a UTF-8 sequence, by its first byte. */
  function Utf8Value(t: seq<int>): int {
    if |t| == 1 then t[0]
    else if |t| == 2 then (t[0] - 0xC0) * 0x40 + (t[1] - 0x80)
    else if |t| == 3 then (t[0] - 0xE0) * 0x1000 + (t[1] - 0x80) * 0x40 + (t[2] - 0x80)
    else if |t| == 4 then (t[0] - 0xF0) * 0x40000 + (t[1] - 0x80) * 0x1000 + (t[2] - 0x80) * 0x40 + (t[3] - 0x80)
    else -1
  }

  /** Whether the sequence has the lead and continuation bytes of its length, and no shorter one has its value. */
  predicate Utf8Form(t: seq<int>) {
    && 1 <= |t| <= 4
    && (|t| == 1 ==> t[0] < 0x80) && (|t| == 2 ==> 0xC2 <= t[0] < 0xE0)
    && (|t| == 3 ==> 0xE0 <= t[0] < 0xF0 && Utf8Value(t) >= 0x800)
    && (|t| == 4 ==> 0xF0 <= t[0] < 0xF5 && 0x10000 <= Utf8Value(t) < 0x110000)
    && forall k :: 1 <= k < |t| ==> 0x80 <= t[k] < 0xC0
  }

  lemma Sextets(n: nat)
    ensures n == n / 64 * 64 + n % 64 && n / 64 == n / 0x1000 * 64 + n / 64 % 64
    ensures n / 0x1000 == n / 0x40000 * 64 + n / 0x1000 % 64
  {
    assert n / 64 / 64 == n / 0x1000 && n / 0x1000 / 64 == n / 0x40000;
  }

  /** Whatever scalar value is written has a UTF-8 form of the shortest length. */
  lemma WritesUtf8(n: nat)
    requires n < 0x110000
    ensures Utf8Form(WriteUtf8(n)) && Utf8Value(WriteUtf8(n)) == n
  {
    Sextets(n);
    var t := WriteUtf8(n);
    if n >= 0x10000 {
      assert n / 0x40000 < 8;
      assert t[0] - 0xF0 == n / 0x40000;
    } else if n >= 0x800 {
      assert t[0] - 0xE0 == n / 0x1000;
    } else if n >= 0x80 {
      assert t[0] - 0xC0 == n / 64;
    }
  }

  /** The digits of a hexadecimal number as the four characters of an escape. */
  function HexDigit(d: nat): Byte
    requires d < 16
  {
    if d < 10 then '0' as int + d else 'a' as int + d - 10
  }

  function Hex4(u: nat): Bytes
    requires u < 0x10000
  {
    [HexDigit(u / 0x1000), HexDigit(u / 0x100 % 16), HexDigit(u / 0x10 % 16), HexDigit(u % 16)]
  }

  /** `a | b` adds where the bits of `b` are below those of `a`. */
  lemma {:induction false} OrAdds(x: nat, y: nat, k: nat)
    requires y < Bits.Pow2(k)
    ensures Bits.Or(x * Bits.Pow2(k), y) == x * Bits.Pow2(k) + y
  {
    if x == 0 {
      assert x * Bits.Pow2(k) == 0;
    } else if k > 0 && y > 0 {
      var p := Bits.Pow2(k - 1);
      Doubled(x, p);
      OrAdds(x, y / 2, k - 1);
      OrOfEven(x * p, y);
    }
  }

  lemma Doubled(x: nat, p: nat)
    requires x > 0 && p > 0
    ensures x * (2 * p) == 2 * (x * p) && x * p > 0
  {}

  lemma OrOfEven(a: nat, y: nat)
    requires a > 0 && y > 0
    ensures Bits.Or(2 * a, y) == 2 * Bits.Or(a, y / 2) + y % 2
  {
    assert 2 * a / 2 == a && 2 * a % 2 == 0;
  }

  lemma OrIsSum(a: nat, b: nat, c: nat, d: nat)
    requires a < 16 && b < 16 && c < 16 && d < 16
    ensures Bits.Or(Bits.Or(Bits.Or(a * 0x1000, b * 0x100), c * 0x10), d) == a * 0x1000 + b * 0x100 + c * 0x10 + d
  {
    assert Bits.Pow2(4) == 16 && Bits.Pow2(8) == 0x100 && Bits.Pow2(12) == 0x1000;
    OrAdds(a, b * 0x100, 12);
    OrAdds(a * 16 + b, c * 0x10, 8);
    OrAdds(a * 0x100 + b * 16 + c, d, 4);
  }

  lemma ReadsHex4(s: Bytes, i: nat, u: nat)
    requires u < 0x10000 && i + 4 <= |s| && s[i..i + 4] == Hex4(u)
    ensures Read4Hex(s, i) == Some(u)
  {
    var a, b, c, d := u / 0x1000, u / 0x100 % 16, u / 0x10 % 16, u % 16;
    var t := s[i..i + 4];
    assert s[i] == t[0] && s[i + 1] == t[1] && s[i + 2] == t[2] && s[i + 3] == t[3];
    HexChars(a);
    HexChars(b);
    HexChars(c);
    HexChars(d);
    OrIsSum(a, b, c, d);
    assert u / 0x100 / 16 == a && u / 0x10 / 16 == u / 0x100 && u / 16 == u / 0x10;
  }

  lemma HexChars(d: nat)
    requires d < 16
    ensures HexChar(HexDigit(d)) == d
  {}

  /** The escape of a scalar value: one unit, or a surrogate pair. */
  function Escape(n: nat): Bytes
    requires n < 0x110000
  {
    if n < 0x10000 then Hex4(n)
    else Hex4(0xD800 + (n - 0x10000) / 0x400) + ['\\' as int, 'u' as int] + Hex4(0xDC00 + (n - 0x10000) % 0x400)
  }

  /** Every scalar value can be written as an escape, and is read as its UTF-8 form. */
  lemma EscapeReads(s: Bytes, i: nat, n: nat)
    requires n < 0x110000 && !(0xD800 <= n < 0xE000)
    requires i + |Escape(n)| <= |s| && s[i..i + |Escape(n)|] == Escape(n)
    ensures ReadEscape(s, i) == (WriteUtf8(n), i + |Escape(n)|)
    ensures Utf8Form(WriteUtf8(n)) && Utf8Value(WriteUtf8(n)) == n
  {
    hide HexChar, HexDigit, Read4Hex, WriteUtf8, Utf8Form, Utf8Value;
    WritesUtf8(n);
    var t := s[i..i + |Escape(n)|];
    if n < 0x10000 {
      ReadsHex4(s, i, n);
    } else {
      var u1, u2 := 0xD800 + (n - 0x10000) / 0x400, 0xDC00 + (n - 0x10000) % 0x400;
      assert s[i..i + 4] == t[..4] && s[i + 6..i + 10] == t[6..10] && s[i + 4] == t[4] && s[i + 5] == t[5];
      ReadsHex4(s, i, u1);
      ReadsHex4(s, i + 6, u2);
    }
  }

  // ---- bad escapes

  predicate IsHexDigit(c: int) {
    Between(c, '0', '9') || Between(c, 'a', 'f') || Between(c, 'A', 'F')
  }

  /** What `hexChar` takes for a digit beyond them are the other capital letters. */
  lemma HexCharExact(c: int)
    ensures IsHexDigit(c) <==> 0 <= HexChar(c) < 16
    ensures Between(c, 'G', 'Z') <==> 16 <= HexChar(c)
  {}

  predicate FourDigits(s: Bytes, i: nat) {
    IsHexDigit(At(s, i)) && IsHexDigit(At(s, i + 1)) && IsHexDigit(At(s, i + 2)) && IsHexDigit(At(s, i + 3))
  }

  /** The unit of four digits. */
  function Unit(s: Bytes, i: nat): nat
    requires FourDigits(s, i)
  {
    Read4Hex(s, i).value
  }

  /** Fewer than four digits, a low surrogate first, or a high one without a low one behind it. */
  predicate BadUnicode(s: Bytes, i: nat) {
    if !FourDigits(s, i) then true
    else if 0xD800 <= Unit(s, i) <= 0xDBFF then
      !(Is(At(s, i + 4), '\\') && Is(At(s, i + 5), 'u') && FourDigits(s, i + 6) && 0xDC00 <= Unit(s, i + 6) <= 0xDFFF)
    else 0xDC00 <= Unit(s, i) <= 0xDFFF
  }

  /** `readUnicodeEscape` reports just these as errors, as long as no other capital letter is taken for a digit. */
  lemma ErrorIsBad(s: Bytes, i: nat)
    requires forall k :: i <= k < i + 10 ==> !Between(At(s, k), 'G', 'Z')
    ensures ReadEscape(s, i).0 == [] <==> BadUnicode(s, i)
  {
    hide WriteUtf8, Bits.Or;
    FourExact(s, i);
    FourExact(s, i + 6);
    forall n: nat ensures WriteUtf8(n) != [] { WritesSome(n); }
  }

  /** A bad escape leaves no text, and takes along the four characters that should be digits; a high surrogate
      that is followed by a backslash takes that too, and with a `u` behind it the next four as well. */
  lemma BadTakes(s: Bytes, i: nat)
    requires BadUnicode(s, i) && forall k :: i <= k < i + 10 ==> !Between(At(s, k), 'G', 'Z')
    ensures var high := FourDigits(s, i) && 0xD800 <= Unit(s, i) <= 0xDBFF;
            ReadEscape(s, i) == ([], i + if !high || !Is(At(s, i + 4), '\\') then 4 else if !Is(At(s, i + 5), 'u') then 5 else 10)
  {
    hide WriteUtf8, Bits.Or;
    FourExact(s, i);
    FourExact(s, i + 6);
  }

  lemma FourExact(s: Bytes, i: nat)
    requires forall k :: i <= k < i + 4 ==> !Between(At(s, k), 'G', 'Z')
    ensures FourDigits(s, i) <==> Read4Hex(s, i).Some?
  {
    assert forall k :: i <= k < i + 4 ==> (IsHexDigit(At(s, k)) <==> HexChar(At(s, k)) != EOF);
  }

  lemma WritesSome(n: nat)
    ensures WriteUtf8(n) != []
  {}

  /** Whether the escape whose backslash stands in front of `i` is bad. */
  predicate BadEscape(s: Bytes, i: nat) {
    if Is(At(s, i), 'u') then BadUnicode(s, i + 1)
    else Is(At(s, i), 'x') && !(IsHexDigit(At(s, i + 1)) && IsHexDigit(At(s, i + 2)))
  }

  /** A reader that fails at a bad escape. */
  function ReadStrictly(s: Bytes, i: nat, quote: int): Option<(Bytes, nat)>
    decreases Left(s, i)
  {
    var c := At(s, i);
    if c == EOF then None
    else if c == quote then Some(([], i + 1))
    else if Is(c, '\\') then
      if BadEscape(s, i + 1) then None else
      match ReadBackslash(s, i + 1)
      case None => None
      case Some((text, next)) => Before(text, ReadStrictly(s, next, quote))
    else if Is(c, '\n') || Is(c, '\r') then None
    else Before([c], ReadStrictly(s, i + 1, quote))
  }

  /** The escapes met while a literal is read, each by the position behind its backslash. */
  function Escapes(s: Bytes, i: nat, quote: int): seq<nat>
    decreases Left(s, i)
  {
    var c := At(s, i);
    if c == EOF || c == quote then []
    else if Is(c, '\\') then
      match ReadBackslash(s, i + 1)
      case None => [i + 1]
      case Some((_, next)) => [i + 1] + Escapes(s, next, quote)
    else if Is(c, '\n') || Is(c, '\r') then []
    else Escapes(s, i + 1, quote)
  }

  ghost predicate AllGood(s: Bytes, escapes: seq<nat>) {
    forall k :: 0 <= k < |escapes| ==> !BadEscape(s, escapes[k])
  }

  lemma OneMoreEscape(s: Bytes, i: nat, more: seq<nat>)
    ensures AllGood(s, [i] + more) <==> !BadEscape(s, i) && AllGood(s, more)
  {
    var escapes := [i] + more;
    if AllGood(s, escapes) {
      assert !BadEscape(s, escapes[0]);
      forall k | 0 <= k < |more| ensures !BadEscape(s, more[k]) { assert escapes[k + 1] == more[k]; }
    }
  }

  lemma {:induction false} CharsExact(s: Bytes, i: nat, quote: int)
    ensures ReadStrictly(s, i, quote) == if AllGood(s, Escapes(s, i, quote)) then ReadChars(s, i, quote) else None
    decreases Left(s, i)
  {
    hide ReadBackslash, BadEscape, AllGood;
    var c := At(s, i);
    if c == EOF || c == quote {
      NoEscapes(s);
    } else if Is(c, '\\') {
      OneMoreEscape(s, i + 1, []);
      assert [i + 1] + [] == [i + 1];
      match ReadBackslash(s, i + 1)
      case None =>
      case Some((text, next)) =>
        CharsExact(s, next, quote);
        OneMoreEscape(s, i + 1, Escapes(s, next, quote));
    } else if Is(c, '\n') || Is(c, '\r') {
      NoEscapes(s);
    } else {
      CharsExact(s, i + 1, quote);
    }
  }

  lemma NoEscapes(s: Bytes)
    ensures AllGood(s, [])
  {}

  /** A literal that is read is read as by the strict reader exactly when no escape met in it is bad; the
      strict reader fails at any other. */
  lemma StringExact(s: Bytes, i: nat)
    ensures ReadString(s, i).Some? ==>
            (ReadString(s, i) == ReadStrictly(s, i + 1, At(s, i)) <==> AllGood(s, Escapes(s, i + 1, At(s, i))))
    ensures ReadStrictly(s, i + 1, At(s, i)).Some? ==> ReadString(s, i) == ReadStrictly(s, i + 1, At(s, i))
  {
    hide ReadChars, ReadStrictly, Escapes, AllGood;
    CharsExact(s, i + 1, At(s, i));
  }

  /** A bad escape takes the closing quote for a digit: of the two literals "\\u1" and "x", with the comma
      between them, one literal is left. */
  lemma QuoteIsSwallowed()
    ensures var s := ['"' as int, '\\' as int, 'u' as int, '1' as int, '"' as int, ',' as int, '"' as int, 'x' as int, '"' as int];
            ReadString(s, 0) == Some((['x' as int], 9)) && BadEscape(s, 2)
  {
    var s := ['"' as int, '\\' as int, 'u' as int, '1' as int, '"' as int, ',' as int, '"' as int, 'x' as int, '"' as int];
    assert ReadEscape(s, 3) == ([], 7);
    assert ReadBackslash(s, 2) == Some(([], 7));
    assert ReadChars(s, 8, '"' as int) == Some(([], 9));
    assert ReadChars(s, 7, '"' as int) == Some((['x' as int] + [], 9));
    assert ReadChars(s, 1, '"' as int) == Before([], ReadChars(s, 7, '"' as int));
    assert [] + (['x' as int] + []) == ['x' as int];
  }
}
