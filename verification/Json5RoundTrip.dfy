/** Every text of the language is read as the value it stands for. */
module Json5RoundTrip {
  import opened Wrappers
  import opened Json5Grammar
  import opened Json5Laws
  import opened Json5Text
  import Bits

  /** From position `i` on the stream is `t`. */
  predicate From(s: Bytes, i: nat, t: Bytes) {
    i <= |s| && s[i..] == t
  }

  lemma FromLater(s: Bytes, i: nat, a: Bytes, b: Bytes)
    requires From(s, i, a + b)
    ensures From(s, i + |a|, b) && forall k :: 0 <= k < |a| ==> At(s, i + k) == a[k]
  {
    forall k | 0 <= k < |a| ensures At(s, i + k) == a[k] {
      assert s[i..][k] == (a + b)[k];
    }
    assert s[i + |a|..] == s[i..][|a|..];
  }

  lemma FromAt(s: Bytes, i: nat, t: Bytes, k: nat)
    requires From(s, i, t)
    ensures At(s, i + k) == if k < |t| then t[k] else EOF
  {
    if k < |t| { assert s[i..][k] == t[k]; }
  }

  lemma FromTail(s: Bytes, i: nat, t: Bytes, k: nat)
    requires From(s, i, t) && k <= |t|
    ensures From(s, i + k, t[k..])
  {
    assert s[i + k..] == s[i..][k..];
  }

  lemma FromInside(s: Bytes, i: nat, t: Bytes)
    requires From(s, i, t)
    ensures i <= |s|
  {}

  lemma FromFirst(s: Bytes, i: nat, c: Byte, t: Bytes)
    requires From(s, i, [c] + t)
    ensures At(s, i) == c && From(s, i + 1, t)
  {
    FromAt(s, i, [c] + t, 0);
    FromLater(s, i, [c], t);
  }

  lemma HeadTail(t: Bytes)
    requires t != []
    ensures t == [t[0]] + t[1..]
  {}

  lemma Assoc(a: Bytes, b: Bytes, c: Bytes)
    ensures a + b + c == a + (b + c)
  {}

  // ---- white space

  lemma White1(a: Byte)
    ensures IsWhite1(a) <==> WhiteCharacter([a])
  {}

  lemma White2(a: Byte, b: Byte)
    ensures IsWhite2(a, b) <==> WhiteCharacter([a, b])
  {
    var t := [a, b];
    assert Utf8Value(t) == (a - 0xC0) * 0x40 + (b - 0x80);
  }

  lemma White3(a: Byte, b: Byte, c: Byte)
    ensures IsWhite3(a, b, c) <==> WhiteCharacter([a, b, c])
  {
    var t := [a, b, c];
    assert Utf8Value(t) == (a - 0xE0) * 0x1000 + (b - 0x80) * 0x40 + (c - 0x80);
  }

  /** The three tests together see a white character, and each one its length. */
  lemma WhiteAhead(s: Bytes, i: nat, t: Bytes)
    requires From(s, i, t)
    ensures var a, b, c := At(s, i), At(s, i + 1), At(s, i + 2);
            && (IsWhite1(a) <==> |t| >= 1 && WhiteCharacter(t[..1]))
            && (IsWhite2(a, b) <==> |t| >= 2 && WhiteCharacter(t[..2]))
            && (IsWhite3(a, b, c) <==> |t| >= 3 && WhiteCharacter(t[..3]))
  {
    FromAt(s, i, t, 0);
    FromAt(s, i, t, 1);
    FromAt(s, i, t, 2);
    if |t| >= 1 { White1(t[0]); assert t[..1] == [t[0]]; }
    if |t| >= 2 { White2(t[0], t[1]); assert t[..2] == [t[0], t[1]]; }
    if |t| >= 3 { White3(t[0], t[1], t[2]); assert t[..3] == [t[0], t[1], t[2]]; }
    hide WhiteCharacter;
  }

  lemma FirmStops(s: Bytes, i: nat, rest: Bytes)
    requires From(s, i, rest) && Firm(rest)
    ensures SkipSpace(s, i) == i
  {
    hide WhiteCharacter, IsWhite1, IsWhite2, IsWhite3;
    WhiteAhead(s, i, rest);
    FromAt(s, i, rest, 0);
    FromAt(s, i, rest, 1);
    if |rest| >= 2 { assert rest[..2] == [rest[0], rest[1]]; }
  }

  lemma WhiteLength(w: Bytes, rest: Bytes)
    requires WhiteCharacter(w)
    ensures 1 <= |w| <= 3
    ensures var t := w + rest;
            && t[..|w|] == w && (|w| > 1 ==> !WhiteCharacter(t[..1])) && (|w| > 2 ==> !WhiteCharacter(t[..2]))
  {
    if |w| > 2 { assert (w + rest)[..2] == [w[0], w[1]]; }
  }

  lemma WhiteSkipped(s: Bytes, i: nat, w: Bytes, rest: Bytes)
    requires From(s, i, w + rest) && WhiteCharacter(w)
    ensures SkipSpace(s, i) == SkipSpace(s, i + |w|)
  {
    WhiteLength(w, rest);
    WhiteAhead(s, i, w + rest);
    FromAt(s, i, w + rest, 0);
    hide WhiteCharacter, IsWhite1, IsWhite2, IsWhite3;
  }

  lemma SlashIsNotWhite(b: int, c: int)
    ensures !IsWhite1('/' as int) && !IsWhite2('/' as int, b) && !IsWhite3('/' as int, b, c)
  {}

  /** The tests of `skipPastLineTerminator` see a line end. */
  lemma EndAhead(s: Bytes, i: nat, t: Bytes)
    requires From(s, i, t)
    ensures var c := At(s, i);
            && (c == EOF <==> t == [])
            && (Is(c, '\n') || Is(c, '\r') <==> |t| >= 1 && LineEnd(t[..1]))
            && (IsLineTerminator3(c, At(s, i + 1), At(s, i + 2)) <==> |t| >= 3 && LineEnd(t[..3]))
  {
    FromAt(s, i, t, 0);
    FromAt(s, i, t, 1);
    FromAt(s, i, t, 2);
    if |t| >= 1 { assert t[..1] == [t[0]]; }
    if |t| >= 3 { assert t[..3] == [t[0], t[1], t[2]]; }
  }

  /** What starts inside the text of a comment is no line end that its real one completes. */
  lemma NotYetEnded(text: Bytes, end: Bytes, rest: Bytes)
    requires text != [] && !StartsLineEnd(text) && LineEnd(end)
    ensures !StartsLineEnd(text + (end + rest))
  {
    var t := text + (end + rest);
    assert t[..1] == [text[0]] == text[..1];
    if |t| >= 3 {
      assert t[..3] == [t[0], t[1], t[2]];
      if |text| >= 3 { assert t[..3] == text[..3]; }
    }
  }

  lemma EndLength(end: Bytes, rest: Bytes)
    requires LineEnd(end)
    ensures var t := end + rest; |end| == 1 || |end| == 3
    ensures var t := end + rest; t[..|end|] == end && (|end| == 3 ==> !LineEnd(t[..1]))
  {
    assert |end| == 3 ==> (end + rest)[..1] == [end[0]];
  }

  lemma {:induction false} LinePassed(s: Bytes, i: nat, text: Bytes, end: Bytes, rest: Bytes)
    requires From(s, i, text + (end + rest)) && GoodBlank(LineComment(text, end))
    ensures PastLine(s, i) == i + |text| + |end|
    decreases |text|
  {
    hide From, LineEnd, IsLineTerminator3;
    var t := text + (end + rest);
    EndAhead(s, i, t);
    if text == [] {
      assert t == end + rest;
      EndLength(end, rest);
    } else {
      assert text[0..] == text;
      NotYetEnded(text, end, rest);
      assert t == [text[0]] + (text[1..] + (end + rest));
      FromFirst(s, i, text[0], text[1..] + (end + rest));
      forall k | 0 <= k < |text[1..]| ensures !StartsLineEnd(text[1..][k..]) { assert text[1..][k..] == text[k + 1..]; }
      LinePassed(s, i + 1, text[1..], end, rest);
    }
  }

  lemma {:induction false} BlockPassed(s: Bytes, i: nat, text: Bytes, rest: Bytes)
    requires From(s, i, text + (CLOSES + rest)) && GoodBlank(BlockComment(text))
    ensures PastComment(s, i) == i + |text| + 2
    decreases |text|
  {
    var t := text + (CLOSES + rest);
    FromAt(s, i, t, 0);
    FromAt(s, i, t, 1);
    if text == [] {
      assert t == CLOSES + rest;
    } else {
      assert !(CLOSES <= text[0..]) && text[0..] == text;
      if |text| >= 2 { assert text[..2] == [t[0], t[1]]; }
      FromTail(s, i, t, 1);
      assert t[1..] == text[1..] + (CLOSES + rest);
      forall k | 0 <= k < |text[1..]| ensures !(CLOSES <= text[1..][k..]) { assert text[1..][k..] == text[k + 1..]; }
      BlockPassed(s, i + 1, text[1..], rest);
    }
  }

  /** Two slashes, or a slash and a star, lead into a comment. */
  lemma CommentOpens(s: Bytes, i: nat, b: Byte, t: Bytes)
    requires From(s, i, ['/' as int, b] + t)
    ensures From(s, i + 2, t)
    ensures b == '/' as int ==> SkipSpace(s, i) == SkipSpace(s, PastLine(s, i + 2))
    ensures b == '*' as int ==> SkipSpace(s, i) == SkipSpace(s, PastComment(s, i + 2))
  {
    hide IsWhite1, IsWhite2, IsWhite3, PastLine, PastComment;
    assert ['/' as int, b] + t == ['/' as int] + ([b] + t);
    FromFirst(s, i, '/' as int, [b] + t);
    FromFirst(s, i + 1, b, t);
    SlashIsNotWhite(At(s, i + 1), At(s, i + 2));
  }

  lemma BlankSkipped(s: Bytes, i: nat, b: Blank, rest: Bytes)
    requires From(s, i, WriteBlank(b) + rest) && GoodBlank(b)
    ensures SkipSpace(s, i) == SkipSpace(s, i + |WriteBlank(b)|)
  {
    hide WhiteCharacter, StartsLineEnd, LineEnd, SkipSpace, From, PastLine, PastComment;
    if b.White? {
      WhiteSkipped(s, i, b.character, rest);
    } else if b.LineComment? {
      Apart(SLASHES, b.text, b.end, rest);
      CommentOpens(s, i, '/' as int, b.text + (b.end + rest));
      LinePassed(s, i + 2, b.text, b.end, rest);
    } else {
      Apart(OPENS, b.text, CLOSES, rest);
      CommentOpens(s, i, '*' as int, b.text + (CLOSES + rest));
      BlockPassed(s, i + 2, b.text, rest);
    }
  }

  lemma Apart(a: Bytes, b: Bytes, c: Bytes, d: Bytes)
    ensures a + (b + c) + d == a + (b + (c + d))
  {}

  lemma {:induction false} GapSkipped(s: Bytes, i: nat, gap: Gap, rest: Bytes)
    requires From(s, i, WriteGap(gap) + rest) && GoodGap(gap)
    ensures SkipSpace(s, i) == SkipSpace(s, i + |WriteGap(gap)|) && From(s, i + |WriteGap(gap)|, rest)
    decreases |gap|
  {
    hide SkipSpace, WriteBlank, GoodBlank, From;
    FromLater(s, i, WriteGap(gap), rest);
    if gap != [] {
      var b, more := WriteBlank(gap[0]), WriteGap(gap[1..]);
      assert WriteGap(gap) == b + more;
      Assoc(b, more, rest);
      BlankSkipped(s, i, gap[0], more + rest);
      FromLater(s, i, b, more + rest);
      GapSkipped(s, i + |b|, gap[1..], rest);
    }
  }

  /** A gap in front of something that is no blank. */
  lemma GapEnds(s: Bytes, i: nat, gap: Gap, rest: Bytes)
    requires From(s, i, WriteGap(gap) + rest) && GoodGap(gap) && Firm(rest)
    ensures SkipSpace(s, i) == i + |WriteGap(gap)| && From(s, i + |WriteGap(gap)|, rest)
  {
    hide Firm, SkipSpace, GoodGap, WriteGap, From;
    GapSkipped(s, i, gap, rest);
    FirmStops(s, i + |WriteGap(gap)|, rest);
  }

  lemma SeparatorEnds(s: Bytes, i: nat, p: Separator, rest: Bytes)
    requires From(s, i, WriteSeparator(p) + rest) && GoodSeparator(p) && Firm(rest)
    requires rest != [] && rest[0] != ',' as int
    ensures NextElement(s, i) == i + |WriteSeparator(p)| && From(s, i + |WriteSeparator(p)|, rest)
  {
    hide Firm, SkipSpace, GoodGap, WriteGap;
    if p.comma {
      CommaEnds(s, i, p.before, p.after, rest);
    } else {
      assert WriteSeparator(p) == WriteGap(p.before);
      GapEnds(s, i, p.before, rest);
      FromAt(s, i + |WriteGap(p.before)|, rest, 0);
    }
  }

  lemma CommaEnds(s: Bytes, i: nat, before: Gap, after: Gap, rest: Bytes)
    requires var t := WriteGap(before) + ([',' as int] + WriteGap(after)); From(s, i, t + rest)
    requires GoodGap(before) && GoodGap(after) && Firm(rest)
    ensures var t := WriteGap(before) + ([',' as int] + WriteGap(after));
            NextElement(s, i) == i + |t| && From(s, i + |t|, rest)
  {
    hide Firm, SkipSpace, GoodGap, WriteGap, From;
    var a, b := WriteGap(before), WriteGap(after);
    var later := [',' as int] + (b + rest);
    assert a + ([',' as int] + b) + rest == a + later;
    FirmSign(',', b + rest);
    GapEnds(s, i, before, later);
    FromFirst(s, i + |a|, ',' as int, b + rest);
    GapEnds(s, i + |a| + 1, after, rest);
  }

  /** Nothing that starts with another character of ASCII than a space or a slash is a blank. */
  lemma FirmSign(c: char, t: Bytes)
    requires ' ' < c < '\U{80}' && c != '/'
    ensures Firm([c as int] + t)
  {
    var r := [c as int] + t;
    assert r[0] == c as int;
  }

  // ---- names and words

  lemma PartAhead(s: Bytes, i: nat, t: Bytes)
    requires From(s, i, t)
    ensures IsIdentPart(At(s, i), At(s, i + 1), At(s, i + 2)) <==> NamePart(t)
  {
    hide WhiteCharacter, IsWhite2, IsWhite3;
    WhiteAhead(s, i, t);
    FromAt(s, i, t, 0);
    if |t| >= 1 && t[0] >= 128 { NotOneByte(t[0]); assert t[..1] == [t[0]]; }
  }

  lemma NotOneByte(a: Byte)
    requires a >= 128
    ensures !WhiteCharacter([a])
  {}

  lemma {:induction false} NameEnds(s: Bytes, i: nat, name: Bytes, rest: Bytes)
    requires From(s, i, name + rest) && !NamePart(rest) && forall k :: 0 <= k < |name| ==> NamePart(name[k..] + rest)
    ensures IdentEnd(s, i) == i + |name|
    decreases |name|
  {
    hide NamePart, IsIdentPart;
    PartAhead(s, i, name + rest);
    if name == [] {
      assert name + rest == rest;
    } else {
      assert NamePart(name[0..] + rest) && name[0..] == name;
      FromTail(s, i, name + rest, 1);
      assert (name + rest)[1..] == name[1..] + rest;
      forall k | 0 <= k < |name[1..]| ensures NamePart(name[1..][k..] + rest) { assert name[1..][k..] == name[k + 1..]; }
      NameEnds(s, i + 1, name[1..], rest);
    }
  }

  lemma NameRead(s: Bytes, i: nat, name: Bytes, rest: Bytes)
    requires From(s, i, name + rest) && NameBefore(name, rest)
    ensures ReadIdentifier(s, i) == Some((name, i + |name|))
  {
    hide StartsWhite, IdentEnd;
    FromAt(s, i, name + rest, 0);
    assert NamePart(name[0..] + rest) && (name[0..] + rest)[0] == name[0];
    FromTail(s, i, name + rest, 1);
    assert (name + rest)[1..] == name[1..] + rest;
    forall k | 0 <= k < |name[1..]| ensures NamePart(name[1..][k..] + rest) { assert name[1..][k..] == name[k + 1..]; }
    NameEnds(s, i + 1, name[1..], rest);
    assert s[i..i + |name|] == s[i..][..|name|] == name;
  }

  lemma {:induction false} AsciiIs(text: string)
    requires forall c :: c in text ==> c < '\U{80}'
    ensures |Ascii(text)| == |text| && forall k :: 0 <= k < |text| ==> Ascii(text)[k] == text[k] as int
  {
    if text != "" {
      assert forall c :: c in text[1..] ==> c in text;
      AsciiIs(text[1..]);
    }
  }

  lemma WordsAre()
    ensures Ascii("null") == WriteWord(Null) && Ascii("true") == WriteWord(Bool(true)) && Ascii("false") == WriteWord(Bool(false))
  {
    AsciiIs("null");
    AsciiIs("true");
    AsciiIs("false");
    hide Ascii;
  }

  lemma SpelledNames()
    ensures Ascii("Infinity") == INFINITY && Ascii("NaN") == NAN && INFINITY != NAN
    ensures INFINITY[0] == 'I' as int && NAN[0] == 'N' as int
  {
    AsciiIs("Infinity");
    AsciiIs("NaN");
    hide Ascii;
  }

  lemma WordIsKeyword(v: Value)
    requires IsWord(v)
    ensures Keyword(WriteWord(v)) == Some(v)
  {
    WordsAre();
    SpelledNames();
    hide Ascii;
    assert WriteWord(Null)[0] == 'n' as int && WriteWord(Bool(true))[0] == 't' as int && WriteWord(Bool(false))[0] == 'f' as int;
    assert INFINITY[0] == 'I' as int && NAN[0] == 'N' as int;
  }

  lemma LettersAreName(name: Bytes, rest: Bytes)
    requires name != [] && !NamePart(rest)
    requires forall k :: 0 <= k < |name| ==> Between(name[k], 'a', 'z') || Between(name[k], 'A', 'Z')
    ensures NameBefore(name, rest)
  {
    forall k | 0 <= k < |name| ensures NamePart(name[k..] + rest) { assert (name[k..] + rest)[0] == name[k]; }
  }

  // ---- strings

  lemma HexCharIs(c: int)
    requires IsHexDigit(c) || Between(c, 'G', 'Z')
    ensures HexChar(c) == DigitValue(c) && DigitValue(c) < 36 && (IsHexDigit(c) ==> DigitValue(c) < 16)
  {}

  lemma FourHex(d: Bytes)
    requires |d| == 4 && HexDigits(d)
    ensures HexValue(d) == DigitValue(d[0]) * 0x1000 + DigitValue(d[1]) * 0x100 + DigitValue(d[2]) * 0x10 + DigitValue(d[3])
    ensures HexValue(d) < 0x10000
  {
    hide DigitValue;
    var c, b, a := d[..3], d[..2], d[..1];
    assert c[..2] == b && b[..1] == a && a[..0] == [];
    assert HexValue(a) == HexValue(a[..0]) * 16 + DigitValue(d[0]);
    assert HexValue(b) == HexValue(b[..1]) * 16 + DigitValue(d[1]);
    assert HexValue(c) == HexValue(c[..2]) * 16 + DigitValue(d[2]);
    HexCharIs(d[0]);
    HexCharIs(d[1]);
    HexCharIs(d[2]);
    HexCharIs(d[3]);
  }

  lemma FourRead(s: Bytes, i: nat, d: Bytes, rest: Bytes)
    requires From(s, i, d + rest) && |d| == 4 && HexDigits(d)
    ensures Read4Hex(s, i) == Some(HexValue(d)) && From(s, i + 4, rest)
  {
    FromLater(s, i, d, rest);
    FourHex(d);
    assert At(s, i + 0) == d[0] && At(s, i + 1) == d[1] && At(s, i + 2) == d[2] && At(s, i + 3) == d[3];
    HexCharIs(d[0]);
    HexCharIs(d[1]);
    HexCharIs(d[2]);
    HexCharIs(d[3]);
    hide DigitValue, HexChar, HexValue;
    OrIsSum(DigitValue(d[0]), DigitValue(d[1]), DigitValue(d[2]), DigitValue(d[3]));
  }

  lemma PairRead(s: Bytes, i: nat, high: Bytes, low: Bytes, rest: Bytes)
    requires From(s, i, high + ([BACKSLASH, 'u' as int] + (low + rest)))
    requires |high| == 4 && HexDigits(high) && 0xD800 <= HexValue(high) <= 0xDBFF
    requires |low| == 4 && HexDigits(low) && 0xDC00 <= HexValue(low) <= 0xDFFF
    ensures ReadEscape(s, i) == (WriteUtf8(PairedValue(HexValue(high), HexValue(low))), i + 10)
  {
    hide HexDigits, HexValue, WriteUtf8, Read4Hex, From;
    FourRead(s, i, high, [BACKSLASH, 'u' as int] + (low + rest));
    assert [BACKSLASH, 'u' as int] + (low + rest) == [BACKSLASH] + (['u' as int] + (low + rest));
    FromFirst(s, i + 4, BACKSLASH, ['u' as int] + (low + rest));
    FromFirst(s, i + 5, 'u' as int, low + rest);
    FourRead(s, i + 6, low, rest);
  }

  lemma UnicodeRead(s: Bytes, i: nat, p: Piece, rest: Bytes)
    requires p.Unicode? || p.Surrogates?
    requires From(s, i, WritePiece(p)[2..] + rest) && GoodPiece(p, 0, rest)
    ensures ReadEscape(s, i) == (PieceText(p), i + |WritePiece(p)| - 2)
  {
    hide HexDigits, HexValue, WriteUtf8, Read4Hex, From, PairedValue;
    if p.Unicode? {
      assert WritePiece(p)[2..] == p.digits;
      FourRead(s, i, p.digits, rest);
    } else {
      assert WritePiece(p)[2..] + rest == p.high + ([BACKSLASH, 'u' as int] + (p.low + rest));
      PairRead(s, i, p.high, p.low, rest);
    }
  }

  lemma HexShift(s: Bytes, i: nat, t: Bytes, k: nat)
    requires From(s, i, t)
    ensures Read4Hex(s, i + k) == Read4Hex(t, k)
  {
    assert forall m :: 0 <= m ==> At(s, i + m) == At(t, m) by {
      forall m | 0 <= m ensures At(s, i + m) == At(t, m) { FromAt(s, i, t, m); }
    }
    assert At(s, i + (k + 1)) == At(t, k + 1) && At(s, i + (k + 2)) == At(t, k + 2) && At(s, i + (k + 3)) == At(t, k + 3);
    hide HexChar, Bits.Or;
  }

  /** What is read for an escape depends on the stream from there on only. */
  lemma BackslashShift(s: Bytes, i: nat, t: Bytes)
    requires From(s, i, t)
    ensures ReadBackslash(s, i)
         == if ReadBackslash(t, 0).None? then None else Some((ReadBackslash(t, 0).value.0, i + ReadBackslash(t, 0).value.1))
  {
    hide HexChar, WriteUtf8, Read4Hex, From, Bits.Or;
    FromAt(s, i, t, 0);
    FromAt(s, i, t, 1);
    FromAt(s, i, t, 2);
    FromAt(s, i, t, 5);
    FromAt(s, i, t, 6);
    HexShift(s, i, t, 1);
    HexShift(s, i, t, 7);
  }

  lemma HexPairRead(s: Bytes, i: nat, a: Byte, b: Byte, rest: Bytes)
    requires From(s, i, ['x' as int, a, b] + rest) && IsHexDigit(a) && IsHexDigit(b)
    ensures ReadBackslash(s, i) == Some(([(DigitValue(a) * 16 + DigitValue(b)) % 0x100], i + 3))
  {
    hide HexChar, DigitValue, Bits.Or;
    FromLater(s, i, ['x' as int, a, b], rest);
    var t: Bytes := ['x' as int, a, b];
    assert At(s, i + 0) == t[0] && At(s, i + 1) == t[1] && At(s, i + 2) == t[2];
    HexCharIs(a);
    HexCharIs(b);
    assert Bits.Pow2(4) == 16;
    OrAdds(DigitValue(a), DigitValue(b), 4);
  }

  lemma EscapeLedIn(s: Bytes, i: nat, t: Bytes)
    requires From(s, i, ['u' as int] + t)
    ensures From(s, i + 1, t) && ReadBackslash(s, i) == Some(ReadEscape(s, i + 1))
  {
    hide ReadEscape, HexChar, Bits.Or;
    FromFirst(s, i, 'u' as int, t);
  }

  lemma LetterRead(s: Bytes, i: nat, p: Piece, quote: Byte, rest: Bytes)
    requires (p.Escaped? || p.Nul? || p.ZeroDigit? || p.ReturnFeed?) && From(s, i, WritePiece(p)[1..] + rest) && GoodPiece(p, quote, rest)
    ensures ReadBackslash(s, i) == Some((PieceText(p), i + |WritePiece(p)| - 1))
  {
    hide HexChar, ReadEscape, Bits.Or;
    var t := WritePiece(p)[1..] + rest;
    FromAt(s, i, t, 0);
    FromAt(s, i, t, 1);
  }

  lemma BackslashRead(s: Bytes, i: nat, p: Piece, quote: Byte, rest: Bytes)
    requires !p.Plain? && From(s, i, WritePiece(p)[1..] + rest) && GoodPiece(p, quote, rest)
    ensures ReadBackslash(s, i) == Some((PieceText(p), i + |WritePiece(p)| - 1))
  {
    hide ReadBackslash, DigitValue, HexValue, HexDigits, WriteUtf8, ReadEscape, From, BadEscape;
    var t := WritePiece(p)[1..] + rest;
    if p.Broken? {
      assert t == p.taken + rest;
      BackslashShift(s, i, t);
    } else if p.Unicode? || p.Surrogates? {
      assert t == ['u' as int] + (WritePiece(p)[2..] + rest);
      EscapeLedIn(s, i, WritePiece(p)[2..] + rest);
      UnicodeRead(s, i + 1, p, rest);
    } else if p.HexPair? {
      assert t == ['x' as int, p.a, p.b] + rest;
      HexPairRead(s, i, p.a, p.b, rest);
    } else {
      LetterRead(s, i, p, quote, rest);
    }
  }

  lemma PieceRead(s: Bytes, i: nat, p: Piece, quote: Byte, rest: Bytes)
    requires From(s, i, WritePiece(p) + rest) && IsQuote(quote) && GoodPiece(p, quote, rest)
    ensures ReadChars(s, i, quote) == Before(PieceText(p), ReadChars(s, i + |WritePiece(p)|, quote))
  {
    hide ReadBackslash, From, GoodPiece, ReadChars, Before, PieceText, WritePiece;
    if p.Plain? {
      PlainText(p);
      FromFirst(s, i, p.c, rest);
      AtPlain(s, i, p.c, quote, rest);
    } else {
      PieceSplit(p, rest);
      FromFirst(s, i, BACKSLASH, WritePiece(p)[1..] + rest);
      BackslashRead(s, i + 1, p, quote, rest);
      AtBackslash(s, i, quote, PieceText(p), i + |WritePiece(p)|);
    }
  }

  lemma PlainText(p: Piece)
    requires p.Plain?
    ensures WritePiece(p) == [p.c]
  {}

  lemma PieceSplit(p: Piece, rest: Bytes)
    requires !p.Plain?
    ensures WritePiece(p) != [] && WritePiece(p) + rest == [BACKSLASH] + (WritePiece(p)[1..] + rest)
  {
    assert WritePiece(p) != [] && WritePiece(p)[0] == BACKSLASH;
    hide WritePiece;
    HeadTail(WritePiece(p));
    Assoc([BACKSLASH], WritePiece(p)[1..], rest);
  }

  lemma AtPlain(s: Bytes, i: nat, c: Byte, quote: Byte, rest: Bytes)
    requires At(s, i) == c && GoodPiece(Plain(c), quote, rest)
    ensures ReadChars(s, i, quote) == Before([c], ReadChars(s, i + 1, quote)) && PieceText(Plain(c)) == [c]
  {
    hide ReadBackslash;
  }

  lemma AtBackslash(s: Bytes, i: nat, quote: Byte, text: Bytes, next: nat)
    requires At(s, i) == BACKSLASH && IsQuote(quote) && ReadBackslash(s, i + 1) == Some((text, next))
    ensures ReadChars(s, i, quote) == Before(text, ReadChars(s, next, quote))
  {
    hide ReadBackslash;
  }

  lemma {:induction false} PiecesRead(s: Bytes, i: nat, pieces: seq<Piece>, quote: Byte, rest: Bytes)
    requires From(s, i, WritePieces(pieces, quote) + rest) && IsQuote(quote) && GoodPieces(pieces, quote, rest)
    ensures ReadChars(s, i, quote) == Some((PiecesText(pieces), i + |WritePieces(pieces, quote)|))
    decreases |pieces|
  {
    hide PieceText, WritePiece, ReadBackslash, GoodPiece;
    var t := WritePieces(pieces, quote) + rest;
    if pieces == [] {
      FromAt(s, i, t, 0);
    } else {
      var p, later := pieces[0], WritePieces(pieces[1..], quote);
      assert t == WritePiece(p) + (later + rest);
      PieceRead(s, i, p, quote, later + rest);
      FromLater(s, i, WritePiece(p), later + rest);
      PiecesRead(s, i + |WritePiece(p)|, pieces[1..], quote, rest);
    }
  }

  lemma StringRead(s: Bytes, i: nat, quote: Byte, pieces: seq<Piece>, rest: Bytes)
    requires From(s, i, [quote] + WritePieces(pieces, quote) + rest) && IsQuote(quote) && GoodPieces(pieces, quote, rest)
    ensures ReadString(s, i) == Some((PiecesText(pieces), i + 1 + |WritePieces(pieces, quote)|))
  {
    hide WritePieces, GoodPieces;
    assert [quote] + WritePieces(pieces, quote) + rest == [quote] + (WritePieces(pieces, quote) + rest);
    FromFirst(s, i, quote, WritePieces(pieces, quote) + rest);
    PiecesRead(s, i + 1, pieces, quote, rest);
  }

  // ---- numbers

  lemma {:induction false} DigitsRead(s: Bytes, i: nat, d: Bytes, rest: Bytes)
    requires From(s, i, d + rest) && Digits(d) && !StartsDigit(rest)
    ensures DigitsEnd(s, i) == i + |d| <= |s| && From(s, i + |d|, rest) && s[i..i + |d|] == d
    decreases |d|
  {
    FromAt(s, i, d + rest, 0);
    FromLater(s, i, d, rest);
    assert s[i..i + |d|] == s[i..][..|d|] == d;
    if d == [] {
      assert d + rest == rest;
    } else {
      assert d + rest == [d[0]] + (d[1..] + rest);
      FromFirst(s, i, d[0], d[1..] + rest);
      DigitsRead(s, i + 1, d[1..], rest);
    }
  }

  /** An exponent as it is handed to jsoncpp. */
  function ExponentText(e: Option<Exponent>): Bytes {
    if e.None? then [] else ['e' as int] + (e.value.sign + e.value.digits)
  }

  lemma ExponentRead(s: Bytes, i: nat, e: Option<Exponent>, text: Bytes, rest: Bytes)
    requires From(s, i, WriteExponent(e) + rest) && GoodExponent(e) && !StartsDigit(rest)
    requires e.None? ==> !NextIn(rest, {'e' as int, 'E' as int})
    requires e.Some? && e.value.sign == [] && e.value.digits == [] ==> !NextIn(rest, {'+' as int, '-' as int})
    ensures ReadExponent(s, i, text) == (text + ExponentText(e), i + |WriteExponent(e)|)
  {
    if e.None? {
      FromAt(s, i, WriteExponent(e) + rest, 0);
      assert text + [] == text && WriteExponent(e) + rest == rest;
    } else {
      MarkedRead(s, i, e.value, text, rest);
    }
  }

  lemma MarkedRead(s: Bytes, i: nat, e: Exponent, text: Bytes, rest: Bytes)
    requires From(s, i, [e.mark] + (e.sign + e.digits) + rest) && GoodExponent(Some(e)) && !StartsDigit(rest)
    requires e.sign == [] && e.digits == [] ==> !NextIn(rest, {'+' as int, '-' as int})
    ensures ReadExponent(s, i, text) == (text + (['e' as int] + (e.sign + e.digits)), i + |[e.mark] + (e.sign + e.digits)|)
  {
    hide From, DigitsEnd, Digits, StartsDigit, NextIn;
    var behind := e.digits + rest;
    assert [e.mark] + (e.sign + e.digits) + rest == [e.mark] + (e.sign + behind);
    FromFirst(s, i, e.mark, e.sign + behind);
    FromLater(s, i + 1, e.sign, behind);
    DigitsRead(s, i + 1 + |e.sign|, e.digits, rest);
    SignAhead(s, i + 1, e.sign, e.digits, rest);
    hide IsSign;
    MarkText(text, e);
  }

  lemma MarkText(text: Bytes, e: Exponent)
    requires IsSign(e.sign)
    ensures (if e.sign != [] then text + ['e' as int] + [e.sign[0]] else text + ['e' as int]) + e.digits
         == text + (['e' as int] + (e.sign + e.digits))
    ensures |e.sign| <= 1
  {}

  lemma SignAhead(s: Bytes, i: nat, sign: Bytes, digits: Bytes, rest: Bytes)
    requires From(s, i, sign + (digits + rest)) && IsSign(sign) && Digits(digits)
    requires sign == [] && digits == [] ==> !NextIn(rest, {'+' as int, '-' as int})
    ensures Is(At(s, i), '+') || Is(At(s, i), '-') <==> sign != []
    ensures sign != [] ==> At(s, i) == sign[0]
  {
    FromAt(s, i, sign + (digits + rest), 0);
    if sign == [] {
      assert sign + (digits + rest) == digits + rest;
      if digits == [] { assert digits + rest == rest; }
    }
  }

  function PointText(point: bool, fraction: Bytes): Bytes {
    if !point then [] else ['.' as int] + if fraction == [] then ['0' as int] else fraction
  }

  lemma FractionRead(s: Bytes, i: nat, point: bool, fraction: Bytes, text: Bytes, rest: Bytes)
    requires From(s, i, Point(point) + (fraction + rest)) && Digits(fraction) && !StartsDigit(rest)
    requires !point ==> fraction == [] && !NextIn(rest, {'.' as int})
    ensures ReadFraction(s, i, text) == (text + PointText(point, fraction), i + |Point(point)| + |fraction|)
  {
    hide From, DigitsEnd, ReadFraction;
    FromInside(s, i, Point(point) + (fraction + rest));
    if point {
      FromFirst(s, i, '.' as int, fraction + rest);
      FromAt(s, i + 1, fraction + rest, 0);
      DigitsRead(s, i + 1, fraction, rest);
      AtPoint(s, i, fraction, text);
    } else {
      assert [] + ([] + rest) == rest && [] + rest == rest;
      FromAt(s, i, rest, 0);
      DigitsRead(s, i, [], rest);
      NoPoint(s, i, text);
    }
  }

  lemma AtPoint(s: Bytes, i: nat, fraction: Bytes, text: Bytes)
    requires i < |s| && Is(At(s, i), '.') && DigitsEnd(s, i + 1) == i + 1 + |fraction| <= |s| && s[i + 1..i + 1 + |fraction|] == fraction
    requires Between(At(s, i + 1), '0', '9') <==> fraction != []
    ensures ReadFraction(s, i, text) == (text + PointText(true, fraction), i + 1 + |fraction|)
  {
    hide DigitsEnd;
    Assoc(text, ['.' as int], fraction);
    Assoc(text, ['.' as int], ['0' as int]);
    assert text + (['.' as int] + ['0' as int]) + [] == text + (['.' as int] + ['0' as int]);
  }

  lemma NoPoint(s: Bytes, i: nat, text: Bytes)
    requires i <= |s| && !Is(At(s, i), '.') && DigitsEnd(s, i) == i
    ensures ReadFraction(s, i, text) == (text + [], i)
  {
    hide DigitsEnd;
    assert s[i..i] == [];
  }

  function Point(point: bool): Bytes {
    if point then ['.' as int] else []
  }

  lemma DecimalRead(s: Bytes, i: nat, n: Number, whole: Bytes, text: Bytes, rest: Bytes)
    requires n.Written? && NumberFits(n, rest) && Digits(whole)
    requires From(s, i, whole + (Point(n.point) + (n.fraction + (WriteExponent(n.exponent) + rest))))
    ensures ReadDecimal(s, i, text)
         == (text + whole + PointText(n.point, n.fraction) + ExponentText(n.exponent),
             i + |whole| + |Point(n.point)| + |n.fraction| + |WriteExponent(n.exponent)|)
  {
    hide ReadDecimal, ReadFraction, ReadExponent, NumberFits, DigitsEnd, From, Digits, StartsDigit, NextIn, GoodExponent;
    hide WriteExponent, ExponentText, PointText, Point;
    var x, p := WriteExponent(n.exponent), Point(n.point);
    var j := i + |whole|;
    var k := j + |p|;
    NoDigitAhead(n, rest);
    DigitsRead(s, i, whole, p + (n.fraction + (x + rest)));
    FractionRead(s, j, n.point, n.fraction, text + whole, x + rest);
    FromLater(s, j, p, n.fraction + (x + rest));
    FromLater(s, k, n.fraction, x + rest);
    ExponentRead(s, k + |n.fraction|, n.exponent, text + whole + PointText(n.point, n.fraction), rest);
    DecimalAt(s, i, j, whole, text, text + whole + PointText(n.point, n.fraction), k + |n.fraction|);
  }

  lemma DecimalAt(s: Bytes, i: nat, j: nat, whole: Bytes, text: Bytes, pointed: Bytes, k: nat)
    requires i <= j <= |s| && DigitsEnd(s, i) == j && s[i..j] == whole && ReadFraction(s, j, text + whole) == (pointed, k)
    ensures k <= |s| && ReadDecimal(s, i, text) == ReadExponent(s, k, pointed)
  {
    hide DigitsEnd, ReadFraction, ReadExponent;
  }

  lemma NoDigitAhead(n: Number, rest: Bytes)
    requires n.Written? && NumberFits(n, rest)
    ensures GoodExponent(n.exponent) && Digits(n.fraction) && !StartsDigit(rest)
    ensures n.exponent.None? ==> !NextIn(rest, {'e' as int, 'E' as int})
    ensures n.exponent.Some? && n.exponent.value.sign == [] && n.exponent.value.digits == [] ==> !NextIn(rest, {'+' as int, '-' as int})
    ensures var e := WriteExponent(n.exponent) + rest;
            && !StartsDigit(e) && (!n.point ==> n.fraction == [] && !NextIn(e, {'.' as int}))
            && !StartsDigit(Point(n.point) + (n.fraction + e))
  {
    var e := WriteExponent(n.exponent) + rest;
    if n.exponent.None? {
      assert e == rest;
    } else {
      assert e[0] == n.exponent.value.mark;
    }
    if n.point {
      assert (['.' as int] + (n.fraction + e))[0] == '.' as int;
    } else {
      assert [] + ([] + e) == e;
    }
  }

  const WORD_SIZE: nat := 0x1_0000_0000_0000_0000

  lemma ShiftedIn(x: nat, d: nat)
    ensures (x % WORD_SIZE * 16 + d) % WORD_SIZE == (x * 16 + d) % WORD_SIZE
  {
    var q, r := x / WORD_SIZE, x % WORD_SIZE;
    assert x * 16 + d == WORD_SIZE * (q * 16) + (r * 16 + d);
    Bits.ModIs(x * 16 + d, WORD_SIZE, q * 16 + (r * 16 + d) / WORD_SIZE, (r * 16 + d) % WORD_SIZE);
  }

  lemma {:induction false} HexRead(s: Bytes, i: nat, done: Bytes, d: Bytes, rest: Bytes)
    requires From(s, i, d + rest) && LooseDigits(d)
    requires !(rest != [] && (IsHexDigit(rest[0]) || Between(rest[0], 'G', 'Z')))
    ensures ReadHex(s, i, HexValue(done) % WORD_SIZE) == (HexValue(done + d) % WORD_SIZE, i + |d|)
    decreases |d|
  {
    hide HexValue;
    FromAt(s, i, d + rest, 0);
    if d == [] {
      assert done + d == done && d + rest == rest;
      if rest != [] { HexCharExact(rest[0]); }
    } else {
      HexCharIs(d[0]);
      assert d + rest == [d[0]] + (d[1..] + rest);
      FromFirst(s, i, d[0], d[1..] + rest);
      assert done + [d[0]] + d[1..] == done + d;
      OneMoreDigit(done, d[0]);
      ShiftedIn(HexValue(done), DigitValue(d[0]));
      HexRead(s, i + 1, done + [d[0]], d[1..], rest);
    }
  }

  lemma OneMoreDigit(done: Bytes, c: Byte)
    ensures HexValue(done + [c]) == HexValue(done) * 16 + DigitValue(c)
  {
    assert (done + [c])[..|done|] == done;
  }

  lemma FirstDigit(c: Byte)
    ensures HexValue([c]) == DigitValue(c)
  {
    OneMoreDigit([], c);
    assert [] + [c] == [c];
  }

  /** jsoncpp decides about the others than hexadecimal ones. */
  function NumberResult(n: Number, end: nat, accepts: Accepts): Option<(Value, nat)> {
    if n.Written? && !accepts(Normal(n)) then None else Some((NumberValue(n), end))
  }

  /** What stands behind the sign. */
  function Unsigned(n: Number): Bytes {
    WriteNumber(n)[|n.sign|..]
  }

  lemma HexadecimalRead(s: Bytes, i: nat, n: Number, rest: Bytes, accepts: Accepts)
    requires n.Hexadecimal? && NumberFits(n, rest) && From(s, i, Unsigned(n) + rest)
    ensures ReadUnsigned(s, i, n.sign == MINUS, accepts) == Some((NumberValue(n), i + |Unsigned(n)|))
  {
    hide ReadHex, HexValue, From, HexChar, DigitValue, ReadUnsigned;
    var d, more := n.digits[0], n.digits[1..];
    HexadecimalText(n, rest);
    hide Unsigned;
    FromFirst(s, i, '0' as int, [n.x] + ([d] + (more + rest)));
    FromFirst(s, i + 1, n.x, [d] + (more + rest));
    FromFirst(s, i + 2, d, more + rest);
    HexCharIs(d);
    FirstDigit(d);
    assert DigitValue(d) % WORD_SIZE == DigitValue(d);
    HexRead(s, i + 3, [d], more, rest);
    AtHexadecimal(s, i, n.sign == MINUS, accepts, DigitValue(d), HexValue(n.digits) % WORD_SIZE, i + |Unsigned(n)|);
  }

  lemma HexadecimalText(n: Number, rest: Bytes)
    requires n.Hexadecimal? && n.digits != []
    ensures Unsigned(n) + rest == ['0' as int] + ([n.x] + ([n.digits[0]] + (n.digits[1..] + rest)))
    ensures |Unsigned(n)| == 3 + |n.digits[1..]| && [n.digits[0]] + n.digits[1..] == n.digits
  {
    assert Unsigned(n) == ['0' as int, n.x] + n.digits;
    assert ['0' as int, n.x] + n.digits + rest == ['0' as int] + ([n.x] + (n.digits + rest));
    assert n.digits + rest == [n.digits[0]] + (n.digits[1..] + rest);
  }

  lemma AtHexadecimal(s: Bytes, i: nat, negative: bool, accepts: Accepts, d: nat, v: nat, end: nat)
    requires At(s, i) == '0' as int && (Is(At(s, i + 1), 'x') || Is(At(s, i + 1), 'X'))
    requires HexChar(At(s, i + 2)) == d && ReadHex(s, i + 3, d) == (v, end)
    ensures i <= |s| && ReadUnsigned(s, i, negative, accepts) == Some((Whole(negative, v), end))
  {
    hide ReadHex, HexChar, ReadDecimal, ReadIdentifier;
  }

  lemma ZeroRead(s: Bytes, i: nat, n: Number, rest: Bytes, accepts: Accepts)
    requires n.Zero? && NumberFits(n, rest) && From(s, i, Unsigned(n) + rest)
    ensures ReadUnsigned(s, i, n.sign == MINUS, accepts) == Some((NumberValue(n), i + |Unsigned(n)|))
  {
    assert Unsigned(n) == ['0' as int];
    FromFirst(s, i, '0' as int, rest);
    FromAt(s, i + 1, rest, 0);
  }

  lemma SpelledRead(s: Bytes, i: nat, n: Number, rest: Bytes, accepts: Accepts)
    requires (n.Unbounded? || n.NoNumber?) && NumberFits(n, rest) && From(s, i, Unsigned(n) + rest)
    ensures ReadUnsigned(s, i, n.sign == MINUS, accepts) == Some((NumberValue(n), i + |Unsigned(n)|))
  {
    hide ReadIdentifier, From, NameBefore, NamePart;
    var name := if n.Unbounded? then INFINITY else NAN;
    assert Unsigned(n) == name;
    LettersAreName(name, rest);
    NameRead(s, i, name, rest);
    FromAt(s, i, name + rest, 0);
    SpelledNames();
    hide Ascii, Unsigned;
  }

  function SignText(n: Number): Bytes {
    if n.sign == MINUS then MINUS else []
  }

  lemma WrittenText(n: Number)
    requires n.Written?
    ensures Normal(n) == SignText(n) + (if n.point && n.whole == [] then ['0' as int] else n.whole)
                         + PointText(n.point, n.fraction) + ExponentText(n.exponent)
  {}

  lemma UnsignedText(n: Number, rest: Bytes)
    requires n.Written?
    ensures var p, e := Point(n.point), WriteExponent(n.exponent);
            && Unsigned(n) + rest == n.whole + (p + (n.fraction + (e + rest)))
            && |Unsigned(n)| == |n.whole| + |p| + |n.fraction| + |e|
  {
    var p, e := Point(n.point), WriteExponent(n.exponent);
    assert Unsigned(n) == n.whole + (p + (n.fraction + e));
  }

  lemma WrittenRead(s: Bytes, i: nat, n: Number, rest: Bytes, accepts: Accepts)
    requires n.Written? && NumberFits(n, rest) && From(s, i, Unsigned(n) + rest)
    ensures ReadUnsigned(s, i, n.sign == MINUS, accepts) == NumberResult(n, i + |Unsigned(n)|, accepts)
  {
    hide ReadDecimal, Unsigned, Normal, PointText, ExponentText, WriteExponent, From, ReadAfterZero, NumberFits, ReadUnsigned;
    hide AsDecimal, Point;
    UnsignedText(n, rest);
    WrittenText(n);
    WholeDigits(n, rest);
    FromInside(s, i, Unsigned(n) + rest);
    var behind := Point(n.point) + (n.fraction + (WriteExponent(n.exponent) + rest));
    WrittenStart(s, i, n, behind, rest);
    AtDigits(s, i, n.sign == MINUS, accepts);
    if n.whole == [] {
      assert [] + behind == behind;
      DecimalRead(s, i, n, [], if n.point then SignText(n) + ['0' as int] else SignText(n), rest);
      assert SignText(n) + ['0' as int] + [] == SignText(n) + ['0' as int] && SignText(n) + [] == SignText(n);
      Decided(n, i + |Unsigned(n)|, accepts);
    } else if n.whole[0] == '0' as int {
      AfterZero(s, i, n, rest, accepts);
    } else {
      DecimalRead(s, i, n, n.whole, SignText(n), rest);
      Decided(n, i + |Unsigned(n)|, accepts);
    }
  }

  lemma Decided(n: Number, end: nat, accepts: Accepts)
    requires n.Written?
    ensures AsDecimal((Normal(n), end), accepts) == NumberResult(n, end, accepts)
  {
    hide Normal;
  }

  /** What comes first of a written number, behind its sign. */
  lemma WrittenStart(s: Bytes, i: nat, n: Number, behind: Bytes, rest: Bytes)
    requires n.Written? && NumberFits(n, rest) && behind == Point(n.point) + (n.fraction + (WriteExponent(n.exponent) + rest))
    requires From(s, i, n.whole + behind)
    ensures n.whole != [] ==> At(s, i) == n.whole[0]
    ensures n.whole == [] && n.point ==> Is(At(s, i), '.')
    ensures n.whole == [] && !n.point ==> At(s, i) !in {'I' as int, 'N' as int, '.' as int, '0' as int}
  {
    hide NumberFits, WriteExponent;
    FromAt(s, i, n.whole + behind, 0);
    if n.whole == [] {
      assert n.whole + behind == behind;
      if n.point { assert behind[0] == '.' as int; } else { SignAlone(n, rest); }
    }
  }

  lemma AtDigits(s: Bytes, i: nat, negative: bool, accepts: Accepts)
    requires i <= |s|
    ensures var sign: Bytes := if negative then MINUS else [];
            && (Is(At(s, i), '.') ==> ReadUnsigned(s, i, negative, accepts) == AsDecimal(ReadDecimal(s, i, sign + ['0' as int]), accepts))
            && (Is(At(s, i), '0') ==> ReadUnsigned(s, i, negative, accepts)
                                        == ReadAfterZero(s, i + 1, negative, sign + ['0' as int], accepts))
            && (At(s, i) !in {'I' as int, 'N' as int, '.' as int, '0' as int} ==>
                  ReadUnsigned(s, i, negative, accepts) == AsDecimal(ReadDecimal(s, i, sign), accepts))
  {
    hide ReadDecimal, ReadAfterZero, ReadIdentifier, AsDecimal;
  }

  lemma WholeDigits(n: Number, rest: Bytes)
    requires n.Written? && NumberFits(n, rest)
    ensures Digits(n.whole) && (n.whole != [] ==> Between(n.whole[0], '0', '9'))
  {}

  lemma SignAlone(n: Number, rest: Bytes)
    requires n.Written? && NumberFits(n, rest) && n.whole == [] && !n.point
    ensures var behind := [] + (n.fraction + (WriteExponent(n.exponent) + rest));
            behind != [] ==> behind[0] !in {'I' as int, 'N' as int, '.' as int, '0' as int}
  {
    var behind := [] + (n.fraction + (WriteExponent(n.exponent) + rest));
    if n.exponent.Some? { assert behind[0] == n.exponent.value.mark; } else { assert behind == rest; }
  }

  lemma AfterZero(s: Bytes, i: nat, n: Number, rest: Bytes, accepts: Accepts)
    requires n.Written? && NumberFits(n, rest) && n.whole != [] && n.whole[0] == '0' as int
    requires var p := Point(n.point);
             From(s, i, n.whole + (p + (n.fraction + (WriteExponent(n.exponent) + rest))))
    ensures var p := Point(n.point);
            ReadAfterZero(s, i + 1, n.sign == MINUS, SignText(n) + ['0' as int], accepts)
              == NumberResult(n, i + |n.whole| + |p| + |n.fraction| + |WriteExponent(n.exponent)|, accepts)
  {
    hide ReadDecimal, Normal, PointText, ExponentText, WriteExponent, From, ReadAfterZero, NumberFits, AsDecimal, Point;
    var behind := Point(n.point) + (n.fraction + (WriteExponent(n.exponent) + rest));
    var more := n.whole[1..];
    WholeDigits(n, rest);
    HeadTail(n.whole);
    Assoc(['0' as int], more, behind);
    FromFirst(s, i, '0' as int, more + behind);
    ZeroBefore(s, i + 1, n, more, behind, rest);
    AtZero(s, i + 1, n.sign == MINUS, SignText(n) + ['0' as int], accepts);
    DecimalRead(s, i + 1, n, more, SignText(n) + ['0' as int], rest);
    WrittenText(n);
    Assoc(SignText(n), ['0' as int], more);
    Decided(n, i + |n.whole| + |Point(n.point)| + |n.fraction| + |WriteExponent(n.exponent)|, accepts);
  }

  lemma ZeroBefore(s: Bytes, i: nat, n: Number, more: Bytes, behind: Bytes, rest: Bytes)
    requires n.Written? && NumberFits(n, rest) && n.whole != [] && n.whole[0] == '0' as int && more == n.whole[1..]
    requires behind == Point(n.point) + (n.fraction + (WriteExponent(n.exponent) + rest)) && From(s, i, more + behind)
    ensures Digits(more) && i <= |s|
    ensures Between(At(s, i), '1', '9') || Is(At(s, i), '.') || Is(At(s, i), 'e') || Is(At(s, i), 'E')
  {
    FromAt(s, i, more + behind, 0);
    if more == [] {
      assert more + behind == behind;
      if n.point { assert behind[0] == '.' as int; } else { assert behind[0] == n.exponent.value.mark; }
    } else {
      assert more[0] == n.whole[1] && Between(n.whole[1], '0', '9');
    }
  }

  lemma AtZero(s: Bytes, i: nat, negative: bool, text: Bytes, accepts: Accepts)
    requires i <= |s| && (Between(At(s, i), '1', '9') || Is(At(s, i), '.') || Is(At(s, i), 'e') || Is(At(s, i), 'E'))
    ensures ReadAfterZero(s, i, negative, text, accepts) == AsDecimal(ReadDecimal(s, i, text), accepts)
  {
    hide ReadDecimal, AsDecimal;
  }

  lemma UnsignedRead(s: Bytes, i: nat, n: Number, rest: Bytes, accepts: Accepts)
    requires NumberFits(n, rest) && From(s, i, Unsigned(n) + rest)
    ensures ReadUnsigned(s, i, n.sign == MINUS, accepts) == NumberResult(n, i + |Unsigned(n)|, accepts)
  {
    hide ReadUnsigned, Unsigned, NumberFits, NumberValue;
    match n
    case Hexadecimal(_, _, _) => HexadecimalRead(s, i, n, rest, accepts);
    case Zero(_) => ZeroRead(s, i, n, rest, accepts);
    case Written(_, _, _, _, _) => WrittenRead(s, i, n, rest, accepts);
    case _ => SpelledRead(s, i, n, rest, accepts);
  }

  lemma NumberStarts(n: Number, rest: Bytes)
    requires NumberFits(n, rest)
    ensures IsSign(n.sign) && WriteNumber(n) != [] && StartsNumber(WriteNumber(n)[0])
    ensures n.sign == [] ==> Unsigned(n) == WriteNumber(n) && WriteNumber(n)[0] != '+' as int && WriteNumber(n)[0] != '-' as int
    ensures n.sign != [] ==> WriteNumber(n) == [n.sign[0]] + Unsigned(n)
  {
    if n.sign == [] {
      assert n.Written? && n.whole != [] ==> WriteNumber(n)[0] == n.whole[0];
      assert n.Written? && n.whole == [] ==> WriteNumber(n)[0] == '.' as int;
    }
  }

  lemma NumberRead(s: Bytes, i: nat, n: Number, rest: Bytes, accepts: Accepts)
    requires From(s, i, WriteNumber(n) + rest) && NumberFits(n, rest)
    ensures i < |s| && StartsNumber(s[i]) && ReadNumber(s, i, accepts) == NumberResult(n, i + |WriteNumber(n)|, accepts)
  {
    hide ReadUnsigned, Unsigned, NumberFits, NumberValue, WriteNumber;
    NumberStarts(n, rest);
    FromAt(s, i, WriteNumber(n) + rest, 0);
    if n.sign == [] {
      UnsignedRead(s, i, n, rest, accepts);
    } else {
      assert WriteNumber(n) + rest == [n.sign[0]] + (Unsigned(n) + rest);
      FromFirst(s, i, n.sign[0], Unsigned(n) + rest);
      UnsignedRead(s, i + 1, n, rest, accepts);
    }
  }

  // ---- values

  /** How deep the text is nested. */
  function Nest(x: Syntax): nat {
    match x
    case Brackets(items) => NestItems(items)
    case Braces(members) => NestMembers(members)
    case _ => 0
  }

  function NestItems(items: Items): nat {
    match items
    case LastItem(_) => 0
    case NextItem(_, value, more) => Max(1 + Nest(value), NestItems(more))
  }

  function NestMembers(members: Members): nat {
    match members
    case LastMember(_) => 0
    case NextMember(_, _, _, _, value, more) => Max(1 + Nest(value), NestMembers(more))
  }

  /** A character that no blank starts with, and no separator or closing bracket either. */
  predicate Starts(c: Byte) {
    ' ' as int < c < 128 && c !in {'/' as int, ',' as int, ':' as int, ']' as int, '}' as int}
  }

  lemma ValueStarts(x: Syntax, rest: Bytes, accepts: Accepts)
    requires Good(x, rest, accepts)
    ensures Write(x) != [] && Starts(Write(x)[0])
    ensures x.Word? ==> !StartsNumber(Write(x)[0])
    ensures x.Word? ==> Write(x)[0] !in {'{' as int, '[' as int, '"' as int, '\'' as int}
    ensures x.Numeral? ==> StartsNumber(Write(x)[0])
  {
    if x.Numeral? {
      NumberStarts(x.number, rest);
      hide NumberFits, WriteNumber;
    } else if x.Word? {
      hide GoodItems, GoodMembers, WriteItems, WriteMembers;
      assert INFINITY[0] == 'I' as int && NAN[0] == 'N' as int;
    }
  }

  lemma FirmStart(t: Bytes)
    requires t != [] && Starts(t[0])
    ensures Firm(t)
  {
    assert t == [t[0]] + t[1..];
    FirmSign(t[0] as char, t[1..]);
  }

  lemma WordRead(s: Bytes, i: nat, v: Value, rest: Bytes)
    requires From(s, i, WriteWord(v) + rest) && IsWord(v) && !NamePart(rest)
    ensures ReadIdentifier(s, i) == Some((WriteWord(v), i + |WriteWord(v)|)) && Keyword(WriteWord(v)) == Some(v)
  {
    hide ReadIdentifier, Keyword;
    WordIsKeyword(v);
    LettersAreName(WriteWord(v), rest);
    NameRead(s, i, WriteWord(v), rest);
  }

  lemma KeyStarts(key: Key, rest: Bytes)
    requires GoodKey(key, rest)
    ensures var t := WriteKey(key) + rest;
            && t != [] && Firm(t) && t[0] !in {',' as int, ']' as int, '}' as int}
            && (key.Bare? ==> !IsQuote(t[0]))
  {
    var t := WriteKey(key) + rest;
    if key.Bare? {
      assert NamePart(key.name[0..] + rest) && key.name[0..] == key.name;
      if t[0] < 128 { FirmStart(t); }
    } else {
      FirmStart(t);
    }
  }

  lemma BareRead(s: Bytes, i: nat, name: Bytes, rest: Bytes)
    requires From(s, i, name + rest) && NameBefore(name, rest) && !IsQuote(name[0])
    ensures ReadKey(s, i) == Some((name, i + |name|))
  {
    hide ReadString, ReadIdentifier, NamePart;
    NameRead(s, i, name, rest);
    FromAt(s, i, name + rest, 0);
  }

  lemma QuotedRead(s: Bytes, i: nat, quote: Byte, pieces: seq<Piece>, rest: Bytes)
    requires From(s, i, [quote] + WritePieces(pieces, quote) + rest) && IsQuote(quote) && GoodPieces(pieces, quote, rest)
    ensures ReadKey(s, i) == Some((PiecesText(pieces), i + 1 + |WritePieces(pieces, quote)|))
  {
    hide ReadString, ReadIdentifier, GoodPieces, WritePieces;
    StringRead(s, i, quote, pieces, rest);
    FromAt(s, i, [quote] + WritePieces(pieces, quote) + rest, 0);
  }

  lemma KeyRead(s: Bytes, i: nat, key: Key, rest: Bytes)
    requires From(s, i, WriteKey(key) + rest) && GoodKey(key, rest)
    ensures ReadKey(s, i) == Some((KeyText(key), i + |WriteKey(key)|)) && From(s, i + |WriteKey(key)|, rest)
  {
    hide ReadKey, Firm, From, NameBefore, GoodPieces, WritePieces, PiecesText;
    KeyStarts(key, rest);
    FromLater(s, i, WriteKey(key), rest);
    match key
    case Bare(name) =>
      BareStart(name, rest);
      BareRead(s, i, name, rest);
    case Quoted(quote, pieces) => QuotedRead(s, i, quote, pieces, rest);
  }

  lemma BareStart(name: Bytes, rest: Bytes)
    requires NameBefore(name, rest)
    ensures name != [] && (name + rest)[0] == name[0]
  {}

  lemma NameAndColon(s: Bytes, i: nat, key: Key, before: Gap, rest: Bytes)
    requires From(s, i, WriteKey(key) + (WriteGap(before) + ([':' as int] + rest)))
    requires GoodKey(key, WriteGap(before) + ([':' as int] + rest)) && GoodGap(before)
    ensures var end := i + |WriteKey(key)| + |WriteGap(before)| + 1;
            ReadName(s, i) == Some((KeyText(key), end)) && From(s, end, rest)
  {
    hide ReadKey, SkipSpace, GoodKey, WriteKey, KeyText, From;
    KeyRead(s, i, key, WriteGap(before) + ([':' as int] + rest));
    var j := i + |WriteKey(key)|;
    FirmSign(':', rest);
    GapEnds(s, j, before, [':' as int] + rest);
    FromFirst(s, j + |WriteGap(before)|, ':' as int, rest);
  }

  // ---- single steps of the parser

  lemma AtToken(s: Bytes, i: nat, j: nat, depth: int, accepts: Accepts)
    requires SkipSpace(s, i) == j && depth >= 0
    ensures Is(At(s, j), '[') ==> ParseValue(s, i, depth, accepts) == ParseItems(s, j + 1, depth - 1, accepts, [])
    ensures Is(At(s, j), '{') ==> ParseValue(s, i, depth, accepts) == ParseMembers(s, j + 1, depth - 1, accepts, [])
  {
    hide SkipSpace;
  }

  lemma AtString(s: Bytes, i: nat, j: nat, text: Bytes, end: nat, depth: int, accepts: Accepts)
    requires SkipSpace(s, i) == j && depth >= 0 && (Is(At(s, j), '"') || Is(At(s, j), '\''))
    requires ReadString(s, j) == Some((text, end))
    ensures ParseValue(s, i, depth, accepts) == Some((Text(text), end))
  {
    hide SkipSpace, ReadString;
  }

  lemma AtNumber(s: Bytes, i: nat, j: nat, depth: int, accepts: Accepts)
    requires SkipSpace(s, i) == j && depth >= 0 && j < |s| && StartsNumber(s[j])
    ensures ParseValue(s, i, depth, accepts) == ReadNumber(s, j, accepts)
  {
    hide SkipSpace, ReadNumber;
  }

  lemma AtWord(s: Bytes, i: nat, j: nat, name: Bytes, end: nat, v: Value, depth: int, accepts: Accepts)
    requires SkipSpace(s, i) == j && depth >= 0 && j < |s| && !StartsNumber(s[j])
    requires s[j] !in {'{' as int, '[' as int, '"' as int, '\'' as int}
    requires ReadIdentifier(s, j) == Some((name, end)) && Keyword(name) == Some(v)
    ensures ParseValue(s, i, depth, accepts) == Some((v, end))
  {
    hide SkipSpace, ReadIdentifier, Keyword;
  }

  lemma ItemsStep(s: Bytes, i: nat, j: nat, v: Value, end: nat, depth: int, accepts: Accepts, done: seq<Value>)
    requires NextElement(s, i) == j && At(s, j) != EOF && !Is(At(s, j), ']') && ParseValue(s, j, depth, accepts) == Some((v, end))
    ensures ParseItems(s, i, depth, accepts, done) == ParseItems(s, end, depth, accepts, done + [v])
  {
    hide NextElement, ParseValue;
  }

  lemma MembersStep(
    s: Bytes, i: nat, j: nat, key: Bytes, k: nat, v: Value, end: nat, depth: int, accepts: Accepts, done: seq<Member>)
    requires NextElement(s, i) == j && At(s, j) != EOF && !Is(At(s, j), '}')
    requires ReadName(s, j) == Some((key, k)) && ParseValue(s, k, depth, accepts) == Some((v, end))
    ensures ParseMembers(s, i, depth, accepts, done) == ParseMembers(s, end, depth, accepts, done + [Member(key, v)])
  {
    hide NextElement, ParseValue, ReadName;
  }

  lemma ItemsClosed(s: Bytes, i: nat, p: Separator, rest: Bytes, depth: int, accepts: Accepts, done: seq<Value>)
    requires From(s, i, WriteSeparator(p) + [']' as int] + rest) && GoodSeparator(p)
    ensures ParseItems(s, i, depth, accepts, done) == Some((List(done), i + |WriteSeparator(p)| + 1))
  {
    hide NextElement, Firm, WriteSeparator, GoodSeparator, From;
    assert WriteSeparator(p) + [']' as int] + rest == WriteSeparator(p) + ([']' as int] + rest);
    FirmSign(']', rest);
    SeparatorEnds(s, i, p, [']' as int] + rest);
    FromFirst(s, i + |WriteSeparator(p)|, ']' as int, rest);
  }

  lemma MembersClosed(s: Bytes, i: nat, p: Separator, rest: Bytes, depth: int, accepts: Accepts, done: seq<Member>)
    requires From(s, i, WriteSeparator(p) + ['}' as int] + rest) && GoodSeparator(p)
    ensures ParseMembers(s, i, depth, accepts, done) == Some((Object(done), i + |WriteSeparator(p)| + 1))
  {
    hide NextElement, Firm, WriteSeparator, GoodSeparator, From;
    assert WriteSeparator(p) + ['}' as int] + rest == WriteSeparator(p) + (['}' as int] + rest);
    FirmSign('}', rest);
    SeparatorEnds(s, i, p, ['}' as int] + rest);
    FromFirst(s, i + |WriteSeparator(p)|, '}' as int, rest);
  }

  // ---- the parts of what is written

  lemma ItemParts(front: Separator, value: Syntax, more: Items, rest: Bytes, accepts: Accepts, depth: int)
    requires var items := NextItem(front, value, more); GoodItems(items, rest, accepts) && NestItems(items) <= depth + 1
    ensures var items, later := NextItem(front, value, more), WriteItems(more) + rest;
            && GoodSeparator(front) && Good(value, later, accepts) && GoodItems(more, rest, accepts)
            && Nest(value) <= depth && NestItems(more) <= depth + 1
            && WriteItems(items) + rest == WriteSeparator(front) + (Write(value) + later)
            && |WriteItems(items)| == |WriteSeparator(front)| + |Write(value)| + |WriteItems(more)|
            && ItemValues(items) == [Meaning(value)] + ItemValues(more)
  {
    hide Write, Good, Nest, GoodSeparator, WriteSeparator, Meaning;
    Apart(WriteSeparator(front), Write(value), WriteItems(more), rest);
  }

  lemma MemberParts(
    front: Separator, key: Key, before: Gap, after: Gap, value: Syntax, more: Members, rest: Bytes, accepts: Accepts, depth: int)
    requires var members := NextMember(front, key, before, after, value, more);
             GoodMembers(members, rest, accepts) && NestMembers(members) <= depth + 1
    ensures var members, later := NextMember(front, key, before, after, value, more), Write(value) + (WriteMembers(more) + rest);
            && GoodSeparator(front) && GoodGap(before) && GoodGap(after) && GoodKey(key, WriteAfterKey(before, after, later))
            && Good(value, WriteMembers(more) + rest, accepts) && GoodMembers(more, rest, accepts)
            && Nest(value) <= depth && NestMembers(more) <= depth + 1
            && WriteMembers(members) + rest == WriteSeparator(front) + (WriteKey(key) + WriteAfterKey(before, after, later))
            && |WriteMembers(members)| == |WriteSeparator(front)| + |WriteKey(key)| + |WriteGap(before)| + 1 + |WriteGap(after)|
                                          + |Write(value)| + |WriteMembers(more)|
            && MemberValues(members) == [Member(KeyText(key), Meaning(value))] + MemberValues(more)
  {
    hide Write, Good, Nest, GoodSeparator, WriteSeparator, Meaning, WriteKey, KeyText, GoodKey, WriteGap, GoodGap;
    var v, m := Write(value), WriteMembers(more);
    BehindKey(before, after, v, m, rest);
    Apart(WriteSeparator(front), WriteKey(key), WriteAfterKey(before, after, v + m), rest);
  }

  lemma BehindKey(before: Gap, after: Gap, v: Bytes, m: Bytes, rest: Bytes)
    ensures WriteAfterKey(before, after, v + m) + rest == WriteAfterKey(before, after, v + (m + rest))
    ensures |WriteAfterKey(before, after, v + m)| == |WriteGap(before)| + 1 + |WriteGap(after)| + |v| + |m|
  {
    hide WriteGap;
    var a, b := WriteGap(before), WriteGap(after);
    Apart(b, v, m, rest);
    Apart([':' as int], b, v + m, rest);
    Apart(a, [':' as int], b + (v + m), rest);
  }

  // ---- every text is read as the value it stands for

  lemma {:induction false} ValueRead(s: Bytes, i: nat, gap: Gap, x: Syntax, rest: Bytes, depth: int, accepts: Accepts)
    requires From(s, i, WriteGap(gap) + (Write(x) + rest)) && GoodGap(gap) && Good(x, rest, accepts) && Nest(x) <= depth
    ensures ParseValue(s, i, depth, accepts) == Some((Meaning(x), i + |WriteGap(gap)| + |Write(x)|))
    ensures From(s, i + |WriteGap(gap)| + |Write(x)|, rest)
    decreases x
  {
    hide SkipSpace, ReadString, ReadNumber, ReadIdentifier, Keyword, From, ParseValue, ParseItems, ParseMembers, WriteGap, GoodGap;
    hide StartsNumber, NumberValue, WriteNumber, NumberFits, Normal, WritePieces, GoodPieces, PiecesText, Firm, Starts, WriteWord, NamePart;
    hide WriteItems, WriteMembers, GoodItems, GoodMembers, ItemValues, MemberValues, NestItems, NestMembers;
    var j, t := i + |WriteGap(gap)|, Write(x) + rest;
    ValueStarts(x, rest, accepts);
    FirmStart(t);
    GapEnds(s, i, gap, t);
    FromAt(s, j, t, 0);
    FromLater(s, j, Write(x), rest);
    match x
    case Word(v) =>
      WordRead(s, j, v, rest);
      AtWord(s, i, j, WriteWord(v), j + |WriteWord(v)|, v, depth, accepts);
    case Quotation(quote, pieces) =>
      StringRead(s, j, quote, pieces, rest);
      AtString(s, i, j, PiecesText(pieces), j + 1 + |WritePieces(pieces, quote)|, depth, accepts);
    case Numeral(n) =>
      NumberRead(s, j, n, rest, accepts);
      AtNumber(s, i, j, depth, accepts);
    case Brackets(items) =>
      AtToken(s, i, j, depth, accepts);
      assert t == ['[' as int] + (WriteItems(items) + rest);
      FromFirst(s, j, '[' as int, WriteItems(items) + rest);
      ItemsRead(s, j + 1, items, rest, depth - 1, accepts, []);
      assert [] + ItemValues(items) == ItemValues(items);
    case Braces(members) =>
      AtToken(s, i, j, depth, accepts);
      assert t == ['{' as int] + (WriteMembers(members) + rest);
      FromFirst(s, j, '{' as int, WriteMembers(members) + rest);
      MembersRead(s, j + 1, members, rest, depth - 1, accepts, []);
      assert [] + MemberValues(members) == MemberValues(members);
  }

  lemma {:induction false} ItemsRead(
    s: Bytes, i: nat, items: Items, rest: Bytes, depth: int, accepts: Accepts, done: seq<Value>)
    requires From(s, i, WriteItems(items) + rest) && GoodItems(items, rest, accepts) && NestItems(items) <= depth + 1
    ensures ParseItems(s, i, depth, accepts, done) == Some((List(done + ItemValues(items)), i + |WriteItems(items)|))
    decreases items
  {
    hide NextElement, ParseValue, ParseItems, Good, Write, Meaning, Nest, From, Firm, Starts, WriteSeparator, GoodSeparator;
    match items
    case LastItem(end) =>
      ItemsClosed(s, i, end, rest, depth, accepts, done);
      assert done + [] == done;
    case NextItem(front, value, more) =>
      ItemParts(front, value, more, rest, accepts, depth);
      hide WriteItems, GoodItems, NestItems, ItemValues;
      var later := WriteItems(more) + rest;
      var j, t := i + |WriteSeparator(front)|, Write(value) + later;
      ValueFirst(value, later, accepts);
      SeparatorEnds(s, i, front, t);
      FromAt(s, j, t, 0);
      NoGap(t);
      ValueRead(s, j, [], value, later, depth, accepts);
      ItemsStep(s, i, j, Meaning(value), j + |Write(value)|, depth, accepts, done);
      ItemsRead(s, j + |Write(value)|, more, rest, depth, accepts, done + [Meaning(value)]);
      assert done + [Meaning(value)] + ItemValues(more) == done + ([Meaning(value)] + ItemValues(more));
  }

  lemma ValueFirst(value: Syntax, later: Bytes, accepts: Accepts)
    requires Good(value, later, accepts)
    ensures var t := Write(value) + later; t != [] && Firm(t) && t[0] !in {',' as int, ']' as int, '}' as int}
  {
    hide Good, Write, Firm;
    ValueStarts(value, later, accepts);
    FirmStart(Write(value) + later);
  }

  lemma NoGap(t: Bytes)
    ensures WriteGap([]) + t == t && WriteGap([]) == [] && GoodGap([])
  {}

  lemma {:induction false} MembersRead(
    s: Bytes, i: nat, members: Members, rest: Bytes, depth: int, accepts: Accepts, done: seq<Member>)
    requires From(s, i, WriteMembers(members) + rest) && GoodMembers(members, rest, accepts) && NestMembers(members) <= depth + 1
    ensures ParseMembers(s, i, depth, accepts, done)
         == Some((Object(done + MemberValues(members)), i + |WriteMembers(members)|))
    decreases members
  {
    hide NextElement, ParseValue, ParseMembers, ReadName, Good, GoodKey, Write, WriteKey, KeyText, Meaning, Nest, From, Firm;
    hide WriteSeparator, GoodSeparator, WriteGap, GoodGap;
    match members
    case LastMember(end) =>
      MembersClosed(s, i, end, rest, depth, accepts, done);
      assert done + [] == done;
    case NextMember(front, key, before, after, value, more) =>
      MemberParts(front, key, before, after, value, more, rest, accepts, depth);
      hide WriteMembers, GoodMembers, NestMembers, MemberValues;
      var later := Write(value) + (WriteMembers(more) + rest);
      var behind := WriteAfterKey(before, after, later);
      KeyStarts(key, behind);
      SeparatorEnds(s, i, front, WriteKey(key) + behind);
      var j := i + |WriteSeparator(front)|;
      FromAt(s, j, WriteKey(key) + behind, 0);
      NameAndColon(s, j, key, before, WriteGap(after) + later);
      var k := j + |WriteKey(key)| + |WriteGap(before)| + 1;
      ValueRead(s, k, after, value, WriteMembers(more) + rest, depth, accepts);
      var end, m := k + |WriteGap(after)| + |Write(value)|, Member(KeyText(key), Meaning(value));
      MembersStep(s, i, j, KeyText(key), k, Meaning(value), end, depth, accepts, done);
      MembersRead(s, end, more, rest, depth, accepts, done + [m]);
      assert done + [m] + MemberValues(more) == done + ([m] + MemberValues(more));
  }

  /** A text of the language is read as the value it stands for, exactly when that is nested no deeper than the
      limit. */
  lemma ReadsBack(s: Bytes, i: nat, gap: Gap, x: Syntax, rest: Bytes, depth: int, accepts: Accepts)
    requires From(s, i, WriteGap(gap) + (Write(x) + rest)) && GoodGap(gap) && Good(x, rest, accepts)
    ensures ParseValue(s, i, depth, accepts)
         == if Height(Meaning(x)) <= depth then Some((Meaning(x), i + |WriteGap(gap)| + |Write(x)|)) else None
    ensures From(s, i + |WriteGap(gap)| + |Write(x)|, rest)
  {
    hide ParseValue, Good, GoodGap, Write, WriteGap, Meaning, Height, Nest, From;
    var enough := if depth < Nest(x) then Nest(x) else depth;
    ValueRead(s, i, gap, x, rest, enough, accepts);
    DepthIsExact(s, i, depth, enough, accepts);
  }

  // ---- documents

  lemma {:induction false} LineRunsOut(s: Bytes, i: nat, text: Bytes)
    requires From(s, i, text) && forall k :: 0 <= k < |text| ==> !StartsLineEnd(text[k..])
    ensures PastLine(s, i) > |s|
    decreases |text|
  {
    FromAt(s, i, text, 0);
    FromAt(s, i, text, 1);
    FromAt(s, i, text, 2);
    if text != [] {
      assert !StartsLineEnd(text[0..]) && text[0..] == text;
      if |text| >= 3 { assert text[..3] == [text[0], text[1], text[2]]; }
      assert text[..1] == [text[0]];
      FromTail(s, i, text, 1);
      forall k | 0 <= k < |text[1..]| ensures !StartsLineEnd(text[1..][k..]) { assert text[1..][k..] == text[k + 1..]; }
      LineRunsOut(s, i + 1, text[1..]);
    }
  }

  lemma {:induction false} BlockRunsOut(s: Bytes, i: nat, text: Bytes)
    requires From(s, i, text) && forall k :: 0 <= k < |text| ==> !(CLOSES <= text[k..])
    ensures PastComment(s, i) > |s|
    decreases |text|
  {
    FromAt(s, i, text, 0);
    FromAt(s, i, text, 1);
    if |text| >= 2 {
      assert !(CLOSES <= text[0..]) && text[0..] == text;
      assert text[..2] == [text[0], text[1]];
      FromTail(s, i, text, 1);
      forall k | 0 <= k < |text[1..]| ensures !(CLOSES <= text[1..][k..]) { assert text[1..][k..] == text[k + 1..]; }
      BlockRunsOut(s, i + 1, text[1..]);
    }
  }

  lemma NothingAhead(s: Bytes, k: nat)
    requires k >= |s|
    ensures SkipSpace(s, k) == k && At(s, k) == EOF
  {}

  lemma TailSkipped(s: Bytes, i: nat, tail: Tail)
    requires From(s, i, WriteTail(tail)) && GoodTail(tail)
    ensures At(s, SkipSpace(s, i)) == EOF
  {
    hide SkipSpace, PastLine, PastComment, StartsLineEnd;
    match tail
    case NoTail => NothingAhead(s, i);
    case OpenLine(text) =>
      CommentOpens(s, i, '/' as int, text);
      LineRunsOut(s, i + 2, text);
      NothingAhead(s, PastLine(s, i + 2));
    case OpenBlock(text) =>
      CommentOpens(s, i, '*' as int, text);
      BlockRunsOut(s, i + 2, text);
      NothingAhead(s, PastComment(s, i + 2));
  }

  /** Every document is read as the value it stands for, unless that is nested too deep. */
  lemma DocumentRead(d: Document, depth: int, accepts: Accepts)
    requires GoodDocument(d, accepts)
    ensures Parse(WriteDocument(d), depth, accepts) == if Height(Meaning(d.value)) <= depth then Some(Meaning(d.value)) else None
  {
    hide ParseValue, SkipSpace, Good, GoodGap, GoodTail, Write, WriteGap, WriteTail, Meaning, Height;
    var s, rest := WriteDocument(d), WriteGap(d.behind) + WriteTail(d.tail);
    assert s[0..] == s;
    ReadsBack(s, 0, d.front, d.value, rest, depth, accepts);
    var i := |WriteGap(d.front)| + |Write(d.value)|;
    hide From;
    GapSkipped(s, i, d.behind, WriteTail(d.tail));
    TailSkipped(s, i + |WriteGap(d.behind)|, d.tail);
  }
}
