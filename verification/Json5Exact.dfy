/** Nothing else is read: whatever the parser accepts is a text of the language, read as what it stands for. */
module Json5Exact {
  import opened Wrappers
  import opened Json5Grammar
  import opened Json5Laws
  import opened Json5Text
  import opened Json5RoundTrip
  import Bits

  /** The stream from `i` on is `t` and what comes from `j` on. */
  ghost predicate Spans(s: Bytes, i: nat, j: nat, t: Bytes) {
    i <= j <= |s| && s[i..] == t + s[j..]
  }

  lemma SpansIs(s: Bytes, i: nat, j: nat, t: Bytes)
    requires Spans(s, i, j, t)
    ensures From(s, i, t + s[j..]) && j == i + |t|
  {
    assert |s[i..]| == |t| + |s[j..]|;
  }

  lemma SpansHere(s: Bytes, i: nat)
    requires i <= |s|
    ensures Spans(s, i, i, [])
  {}

  lemma SpansSlice(s: Bytes, i: nat, j: nat)
    requires i <= j <= |s|
    ensures Spans(s, i, j, s[i..j])
  {}

  lemma SpansOn(s: Bytes, i: nat, j: nat, k: nat, a: Bytes, b: Bytes)
    requires Spans(s, i, j, a) && Spans(s, j, k, b)
    ensures Spans(s, i, k, a + b)
  {
    assert a + (b + s[k..]) == a + b + s[k..];
  }

  lemma SpansByte(s: Bytes, i: nat)
    requires i < |s|
    ensures Spans(s, i, i + 1, [s[i]])
  {}

  // ---- white space

  lemma {:induction false} LineTaken(s: Bytes, i: nat) returns (text: Bytes, end: Bytes)
    requires i <= |s| && PastLine(s, i) <= |s|
    ensures GoodBlank(LineComment(text, end)) && Spans(s, i, PastLine(s, i), text + end)
    decreases |s| - i
  {
    var c := At(s, i);
    if Is(c, '\n') || Is(c, '\r') {
      text, end := [], [s[i]];
      SpansByte(s, i);
      assert [] + end == end;
    } else if IsLineTerminator3(c, At(s, i + 1), At(s, i + 2)) {
      text, end := [], [s[i], s[i + 1], s[i + 2]];
      SpansSlice(s, i, i + 3);
      assert s[i..i + 3] == end && [] + end == end;
    } else {
      var more;
      more, end := LineTaken(s, i + 1);
      text := [s[i]] + more;
      SpansByte(s, i);
      SpansOn(s, i, i + 1, PastLine(s, i), [s[i]], more + end);
      assert [s[i]] + (more + end) == text + end;
      NoLineEndFirst(s, i, PastLine(s, i), text, end);
    }
  }

  lemma NoLineEndFirst(s: Bytes, i: nat, j: nat, text: Bytes, end: Bytes)
    requires text != [] && Spans(s, i, j, text + end) && LineEnd(end)
    requires var c := At(s, i); !Is(c, '\n') && !Is(c, '\r') && !IsLineTerminator3(c, At(s, i + 1), At(s, i + 2))
    requires forall k :: 0 <= k < |text| - 1 ==> !StartsLineEnd(text[1..][k..])
    ensures GoodBlank(LineComment(text, end))
  {
    var t := text + end + s[j..];
    FromAt(s, i, t, 0);
    FromAt(s, i, t, 1);
    FromAt(s, i, t, 2);
    forall k | 0 <= k < |text| ensures !StartsLineEnd(text[k..]) {
      if k == 0 {
        assert text[0..] == text && text[..1] == [t[0]];
        if |text| >= 3 { assert text[..3] == [t[0], t[1], t[2]]; }
      } else {
        assert text[k..] == text[1..][k - 1..];
      }
    }
  }

  lemma {:induction false} BlockTaken(s: Bytes, i: nat) returns (text: Bytes)
    requires i <= |s| && PastComment(s, i) <= |s|
    ensures GoodBlank(BlockComment(text)) && Spans(s, i, PastComment(s, i), text + CLOSES)
    decreases |s| - i
  {
    if Is(At(s, i), '*') && Is(At(s, i + 1), '/') {
      text := [];
      SpansSlice(s, i, i + 2);
      assert s[i..i + 2] == CLOSES && [] + CLOSES == CLOSES;
    } else {
      assert At(s, i + 1) != EOF;
      var more := BlockTaken(s, i + 1);
      text := [s[i]] + more;
      var j := PastComment(s, i);
      SpansByte(s, i);
      SpansOn(s, i, i + 1, j, [s[i]], more + CLOSES);
      assert [s[i]] + (more + CLOSES) == text + CLOSES;
      var t := text + CLOSES + s[j..];
      FromAt(s, i, t, 0);
      FromAt(s, i, t, 1);
      forall k | 0 <= k < |text| ensures !(CLOSES <= text[k..]) {
        if k == 0 {
          assert text[0..] == text;
          if |text| >= 2 { assert text[..2] == [t[0], t[1]]; }
        } else {
          assert text[k..] == more[k - 1..];
        }
      }
    }
  }

  /** The white character or comment that is passed over first. */
  lemma BlankTaken(s: Bytes, i: nat) returns (b: Blank, n: nat)
    requires i <= |s| && SkipSpace(s, i) <= |s| && !Firm(s[i..])
    ensures GoodBlank(b) && i < n && Spans(s, i, n, WriteBlank(b)) && SkipSpace(s, n) == SkipSpace(s, i)
  {
    hide WhiteCharacter, LineEnd, StartsLineEnd;
    var t := s[i..];
    WhiteAhead(s, i, t);
    FromAt(s, i, t, 0);
    FromAt(s, i, t, 1);
    if StartsWhite(t) {
      b, n := WhiteTaken(s, i);
    } else {
      n := CommentEnd(s, i);
      CommentAhead(s, i);
      StaysInside(s, n);
      b := CommentTaken(s, i);
    }
  }

  lemma WhiteTaken(s: Bytes, i: nat) returns (b: Blank, n: nat)
    requires i <= |s| && StartsWhite(s[i..])
    ensures GoodBlank(b) && i < n && Spans(s, i, n, WriteBlank(b)) && SkipSpace(s, n) == SkipSpace(s, i)
  {
    hide WhiteCharacter, SkipSpace;
    var t := s[i..];
    n := if WhiteCharacter(t[..1]) then i + 1 else if |t| >= 2 && WhiteCharacter(t[..2]) then i + 2 else i + 3;
    b := White(s[i..n]);
    SpansSlice(s, i, n);
    assert t[..n - i] == s[i..n];
    SpansIs(s, i, n, s[i..n]);
    WhiteSkipped(s, i, s[i..n], s[n..]);
  }

  /** Where the comment that starts at `i` ends. */
  function CommentEnd(s: Bytes, i: nat): nat {
    if Is(At(s, i + 1), '/') then PastLine(s, i + 2) else PastComment(s, i + 2)
  }

  lemma CommentAhead(s: Bytes, i: nat)
    requires i <= |s| && (SLASHES <= s[i..] || OPENS <= s[i..])
    ensures i + 2 <= |s| && SkipSpace(s, i) == SkipSpace(s, CommentEnd(s, i))
    ensures if Is(At(s, i + 1), '/') then Spans(s, i, i + 2, SLASHES) else Spans(s, i, i + 2, OPENS)
  {
    hide SkipSpace, PastLine, PastComment;
    var t := s[i..];
    assert t == t[..2] + t[2..] && s[i + 2..] == t[2..];
    FromAt(s, i, t, 1);
    CommentOpens(s, i, t[1], t[2..]);
  }

  lemma CommentTaken(s: Bytes, i: nat) returns (b: Blank)
    requires i <= |s| && CommentEnd(s, i) <= |s| && (SLASHES <= s[i..] || OPENS <= s[i..])
    ensures GoodBlank(b) && i < CommentEnd(s, i) && Spans(s, i, CommentEnd(s, i), WriteBlank(b))
    ensures SkipSpace(s, CommentEnd(s, i)) == SkipSpace(s, i)
  {
    hide SkipSpace, PastLine, PastComment, GoodBlank;
    CommentAhead(s, i);
    if Is(At(s, i + 1), '/') {
      var text, end := LineTaken(s, i + 2);
      b := LineComment(text, end);
      SpansOn(s, i, i + 2, CommentEnd(s, i), SLASHES, text + end);
    } else {
      var text := BlockTaken(s, i + 2);
      b := BlockComment(text);
      SpansOn(s, i, i + 2, CommentEnd(s, i), OPENS, text + CLOSES);
    }
  }

  lemma StaysInside(s: Bytes, n: nat)
    ensures n <= SkipSpace(s, n)
  {}

  lemma {:induction false} GapTaken(s: Bytes, i: nat) returns (gap: Gap)
    requires i <= |s| && SkipSpace(s, i) <= |s|
    ensures GoodGap(gap) && Spans(s, i, SkipSpace(s, i), WriteGap(gap)) && Firm(s[SkipSpace(s, i)..])
    decreases |s| - i
  {
    hide SkipSpace, Firm, GoodBlank, WriteBlank;
    if Firm(s[i..]) {
      gap := [];
      FirmStops(s, i, s[i..]);
      SpansHere(s, i);
    } else {
      var b, n := BlankTaken(s, i);
      var more := GapTaken(s, n);
      gap := [b] + more;
      SpansOn(s, i, n, SkipSpace(s, i), WriteBlank(b), WriteGap(more));
      assert gap[0] == b && gap[1..] == more;
    }
  }

  lemma SeparatorTaken(s: Bytes, i: nat) returns (p: Separator)
    requires i <= |s| && NextElement(s, i) <= |s|
    ensures GoodSeparator(p) && Spans(s, i, NextElement(s, i), WriteSeparator(p)) && Firm(s[NextElement(s, i)..])
  {
    hide SkipSpace, Firm, GoodGap, WriteGap;
    var j := SkipSpace(s, i);
    var before := GapTaken(s, i);
    if Is(At(s, j), ',') {
      SpansByte(s, j);
      var after := GapTaken(s, j + 1);
      p := Separator(before, true, after);
      var k := SkipSpace(s, j + 1);
      SpansOn(s, j, j + 1, k, [',' as int], WriteGap(after));
      SpansOn(s, i, j, k, WriteGap(before), [',' as int] + WriteGap(after));
    } else {
      p := Separator(before, false, []);
      assert WriteGap(before) + [] == WriteGap(before);
      NoGap([]);
    }
  }

  // ---- names

  lemma {:induction false} PartsTaken(s: Bytes, i: nat)
    requires i <= |s|
    ensures var end := IdentEnd(s, i);
            i <= end <= |s| && !NamePart(s[end..]) && forall k :: i <= k < end ==> NamePart(s[k..])
    decreases |s| - i
  {
    hide NamePart, IsIdentPart;
    PartAhead(s, i, s[i..]);
    if IsIdentPart(At(s, i), At(s, i + 1), At(s, i + 2)) {
      PartOfSomething(s, i);
      PartsTaken(s, i + 1);
    }
  }

  lemma PartOfSomething(s: Bytes, i: nat)
    requires i <= |s| && NamePart(s[i..])
    ensures i < |s|
  {}

  lemma NameTaken(s: Bytes, i: nat, name: Bytes, end: nat)
    requires i <= |s| && Firm(s[i..]) && ReadIdentifier(s, i) == Some((name, end))
    ensures Spans(s, i, end, name) && NameBefore(name, s[end..])
  {
    hide StartsWhite, IdentEnd;
    var t := s[i..];
    FromAt(s, i, t, 0);
    PartsTaken(s, i + 1);
    SpansSlice(s, i, end);
    forall k | 0 <= k < |name| ensures NamePart(name[k..] + s[end..]) {
      assert name[k..] + s[end..] == s[i + k..];
    }
  }

  // ---- strings

  lemma BadShift(s: Bytes, i: nat, t: Bytes)
    requires From(s, i, t)
    ensures BadEscape(s, i) <==> BadEscape(t, 0)
  {
    hide IsHexDigit, Read4Hex, From;
    forall m | 0 <= m <= 10 ensures At(s, i + m) == At(t, m) { FromAt(s, i, t, m); }
    HexShift(s, i, t, 1);
    HexShift(s, i, t, 7);
    assert At(s, i + 0) == At(t, 0) && At(s, i + 1) == At(t, 1) && At(s, i + 2) == At(t, 2) && At(s, i + 3) == At(t, 3);
    assert At(s, i + 4) == At(t, 4) && At(s, i + 5) == At(t, 5) && At(s, i + 6) == At(t, 6) && At(s, i + 7) == At(t, 7);
    assert At(s, i + 8) == At(t, 8) && At(s, i + 9) == At(t, 9) && At(s, i + 10) == At(t, 10);
  }

  lemma BrokenTaken(s: Bytes, i: nat, quote: Byte, text: Bytes, next: nat) returns (p: Piece)
    requires i <= |s| && ReadBackslash(s, i) == Some((text, next)) && next <= |s| && BadEscape(s, i)
    ensures p == Broken(s[i..next], text) && GoodPiece(p, quote, s[next..])
  {
    hide ReadBackslash, BadEscape;
    p := Broken(s[i..next], text);
    assert s[i..next] + s[next..] == s[i..];
    BackslashShift(s, i, s[i..]);
    BadShift(s, i, s[i..]);
  }

  lemma FourTaken(s: Bytes, i: nat)
    requires FourDigits(s, i)
    ensures i + 4 <= |s| && HexDigits(s[i..i + 4]) && Unit(s, i) == HexValue(s[i..i + 4])
  {
    assert At(s, i + 3) != EOF;
    var d := s[i..i + 4];
    assert d[0] == s[i] && d[1] == s[i + 1] && d[2] == s[i + 2] && d[3] == s[i + 3];
    assert s[i..] == d + s[i + 4..];
    hide HexValue, Read4Hex;
    FourRead(s, i, d, s[i + 4..]);
  }

  lemma EscapeTaken(s: Bytes, i: nat, quote: Byte) returns (p: Piece)
    requires i < |s| && Is(s[i], 'u') && !BadEscape(s, i)
    ensures (p.Unicode? || p.Surrogates?) && i + |WritePiece(p)| - 1 <= |s|
    ensures Spans(s, i, i + |WritePiece(p)| - 1, WritePiece(p)[1..]) && GoodPiece(p, quote, s[i + |WritePiece(p)| - 1..])
  {
    hide HexDigits, HexValue, Read4Hex, FourDigits;
    FourTaken(s, i + 1);
    if 0xD800 <= Unit(s, i + 1) <= 0xDBFF {
      FourTaken(s, i + 7);
      p := Surrogates(s[i + 1..i + 5], s[i + 7..i + 11]);
      PairText(s, i, p);
      SpansSlice(s, i, i + 11);
    } else {
      p := Unicode(s[i + 1..i + 5]);
      UnitText(s, i, p);
      SpansSlice(s, i, i + 5);
    }
  }

  lemma UnitText(s: Bytes, i: nat, p: Piece)
    requires i + 5 <= |s| && Is(s[i], 'u') && p == Unicode(s[i + 1..i + 5])
    ensures WritePiece(p)[1..] == s[i..i + 5]
  {
    assert WritePiece(p)[1..] == ['u' as int] + p.digits;
    assert s[i..i + 5] == [s[i]] + s[i + 1..i + 5];
  }

  lemma PairText(s: Bytes, i: nat, p: Piece)
    requires i + 11 <= |s| && Is(s[i], 'u') && Is(s[i + 5], '\\') && Is(s[i + 6], 'u')
    requires p == Surrogates(s[i + 1..i + 5], s[i + 7..i + 11])
    ensures WritePiece(p)[1..] == s[i..i + 11] && |WritePiece(p)| == 12
  {
    assert WritePiece(p)[1..] == ['u' as int] + (p.high + ([BACKSLASH, 'u' as int] + p.low));
    SliceSplit(s, i, i + 1, i + 11);
    SliceSplit(s, i + 1, i + 5, i + 11);
    SliceSplit(s, i + 5, i + 7, i + 11);
    assert s[i..i + 1] == ['u' as int] && s[i + 5..i + 7] == [BACKSLASH, 'u' as int];
  }

  lemma SliceSplit(s: Bytes, i: nat, j: nat, k: nat)
    requires i <= j <= k <= |s|
    ensures s[i..k] == s[i..j] + s[j..k]
  {}

  /** One character or two behind a backslash. */
  lemma LetterTaken(s: Bytes, i: nat, quote: Byte) returns (p: Piece)
    requires i < |s| && !Is(s[i], 'u') && !BadEscape(s, i)
    ensures !p.Plain? && !p.Broken? && i + |WritePiece(p)| - 1 <= |s|
    ensures Spans(s, i, i + |WritePiece(p)| - 1, WritePiece(p)[1..]) && GoodPiece(p, quote, s[i + |WritePiece(p)| - 1..])
  {
    hide BadUnicode;
    var c := s[i];
    FromAt(s, i, s[i..], 1);
    if Is(c, 'x') {
      assert At(s, i + 1) != EOF && At(s, i + 2) != EOF;
      p := HexPair(s[i + 1], s[i + 2]);
    } else if Is(c, '0') {
      p := if Between(At(s, i + 1), '0', '9') then ZeroDigit else Nul;
    } else if Is(c, '\r') && Is(At(s, i + 1), '\n') {
      p := ReturnFeed;
    } else {
      p := Escaped(c);
    }
    var n := i + |WritePiece(p)| - 1;
    assert WritePiece(p)[1..] == s[i..n];
    SpansSlice(s, i, n);
  }

  lemma BackslashTaken(s: Bytes, i: nat, quote: Byte, text: Bytes, next: nat) returns (p: Piece)
    requires i <= |s| && ReadBackslash(s, i) == Some((text, next)) && next <= |s|
    ensures !p.Plain? && Spans(s, i, next, WritePiece(p)[1..]) && GoodPiece(p, quote, s[next..]) && PieceText(p) == text
  {
    hide ReadBackslash, BadEscape, GoodPiece, PieceText;
    SomethingEscaped(s, i);
    if BadEscape(s, i) {
      p := BrokenTaken(s, i, quote, text, next);
      BrokenText(p);
      assert WritePiece(p)[1..] == s[i..next];
      SpansSlice(s, i, next);
    } else {
      if Is(s[i], 'u') {
        p := EscapeTaken(s, i, quote);
      } else {
        p := LetterTaken(s, i, quote);
      }
      var n := i + |WritePiece(p)| - 1;
      SpansIs(s, i, n, WritePiece(p)[1..]);
      BackslashRead(s, i, p, quote, s[n..]);
    }
  }

  lemma SomethingEscaped(s: Bytes, i: nat)
    requires ReadBackslash(s, i).Some?
    ensures i < |s|
  {}

  lemma BrokenText(p: Piece)
    requires p.Broken?
    ensures PieceText(p) == p.text
  {}

  lemma EndsInside(s: Bytes, i: nat, quote: int)
    requires ReadChars(s, i, quote).Some?
    ensures i < |s|
  {}

  lemma {:induction false} PiecesTaken(s: Bytes, i: nat, quote: Byte, text: Bytes, end: nat) returns (pieces: seq<Piece>)
    requires ReadChars(s, i, quote) == Some((text, end)) && IsQuote(quote) && i <= |s|
    ensures GoodPieces(pieces, quote, s[end..]) && Spans(s, i, end, WritePieces(pieces, quote)) && PiecesText(pieces) == text
    decreases |s| - i
  {
    hide ReadBackslash, GoodPiece, WritePiece, PieceText;
    EndsInside(s, i, quote);
    var c := s[i];
    if c == quote {
      pieces := [];
      SpansByte(s, i);
    } else {
      var p, next, more;
      if Is(c, '\\') {
        match ReadBackslash(s, i + 1)
        case Some((x, n)) =>
          next := n;
          EndsInside(s, next, quote);
          p := BackslashTaken(s, i + 1, quote, x, next);
          PieceBehind(s, i, next, p);
          more := PiecesTaken(s, next, quote, ReadChars(s, next, quote).value.0, end);
      } else {
        next := i + 1;
        EndsInside(s, next, quote);
        p := Plain(c);
        PlainTaken(s, i, c, quote);
        more := PiecesTaken(s, next, quote, ReadChars(s, next, quote).value.0, end);
      }
      pieces := [p] + more;
      assert pieces[0] == p && pieces[1..] == more;
      SpansOn(s, i, next, end, WritePiece(p), WritePieces(more, quote));
    }
  }

  lemma PlainTaken(s: Bytes, i: nat, c: Byte, quote: Byte)
    requires i < |s| && s[i] == c && c != quote && !Is(c, '\\') && !Is(c, '\n') && !Is(c, '\r')
    ensures GoodPiece(Plain(c), quote, s[i + 1..]) && Spans(s, i, i + 1, WritePiece(Plain(c))) && PieceText(Plain(c)) == [c]
  {
    SpansByte(s, i);
  }

  lemma PieceBehind(s: Bytes, i: nat, next: nat, p: Piece)
    requires i < |s| && Is(s[i], '\\') && !p.Plain? && Spans(s, i + 1, next, WritePiece(p)[1..])
    ensures Spans(s, i, next, WritePiece(p))
  {
    SpansByte(s, i);
    SpansOn(s, i, i + 1, next, [s[i]], WritePiece(p)[1..]);
    assert [s[i]] + WritePiece(p)[1..] == WritePiece(p);
  }

  // ---- numbers

  lemma {:induction false} DigitsTaken(s: Bytes, i: nat)
    requires i <= |s|
    ensures var end := DigitsEnd(s, i); Spans(s, i, end, s[i..end]) && Digits(s[i..end]) && !StartsDigit(s[end..])
    decreases |s| - i
  {
    var end := DigitsEnd(s, i);
    FromAt(s, i, s[i..], 0);
    SpansSlice(s, i, end);
    if Between(At(s, i), '0', '9') {
      DigitsTaken(s, i + 1);
      assert s[i..end] == [s[i]] + s[i + 1..end];
    }
  }

  lemma ExponentTaken(s: Bytes, i: nat) returns (e: Option<Exponent>, end: nat)
    requires i <= |s| && !StartsDigit(s[i..])
    ensures GoodExponent(e) && Spans(s, i, end, WriteExponent(e)) && !StartsDigit(s[end..])
    ensures e.Some? <==> Is(At(s, i), 'e') || Is(At(s, i), 'E')
    ensures e.None? ==> end == i && !NextIn(s[end..], {'e' as int, 'E' as int})
    ensures e.Some? && e.value.sign == [] && e.value.digits == [] ==> !NextIn(s[end..], {'+' as int, '-' as int})
  {
    hide DigitsEnd, Digits, Spans, StartsDigit, WriteExponent;
    NextAt(s, i);
    if !Is(At(s, i), 'e') && !Is(At(s, i), 'E') {
      e, end := None, i;
      SpansHere(s, i);
      assert WriteExponent(None) == [] by { NothingMarked(); }
    } else {
      SpansByte(s, i);
      var sign, k := SignTaken(s, i + 1);
      end := DigitsEnd(s, k);
      DigitsTaken(s, k);
      InsideOf(s, i + 1, k, sign);
      InsideOf(s, k, end, s[k..end]);
      e := Some(Exponent(s[i], sign, s[k..end]));
      SpansOn(s, i + 1, k, end, sign, s[k..end]);
      SpansOn(s, i, i + 1, end, [s[i]], sign + s[k..end]);
      Marked(e.value);
      assert sign == [] && s[k..end] == [] ==> k == i + 1 && end == k by {
        if sign == [] && s[k..end] == [] { assert |s[k..end]| == end - k; }
      }
    }
  }

  lemma NothingMarked()
    ensures WriteExponent(None) == []
  {}

  lemma Marked(e: Exponent)
    ensures WriteExponent(Some(e)) == [e.mark] + (e.sign + e.digits)
  {}

  lemma SignTaken(s: Bytes, i: nat) returns (sign: Bytes, k: nat)
    requires i <= |s|
    ensures IsSign(sign) && Spans(s, i, k, sign) && (sign == [] ==> k == i && !NextIn(s[i..], {'+' as int, '-' as int}))
  {
    FromAt(s, i, s[i..], 0);
    if Is(At(s, i), '+') || Is(At(s, i), '-') {
      SpansByte(s, i);
      k, sign := i + 1, [s[i]];
    } else {
      SpansHere(s, i);
      k, sign := i, [];
    }
  }

  /** The parts of a decimal number, each as long as it goes. */
  lemma DecimalTaken(s: Bytes, i: nat, sign: Bytes) returns (n: Number, end: nat)
    requires i <= |s| && IsSign(sign)
    ensures n.Written? && n.sign == sign && n.whole == s[i..DigitsEnd(s, i)] && Spans(s, i, end, Unsigned(n))
    ensures GoodExponent(n.exponent) && Digits(n.whole) && Digits(n.fraction) && (!n.point ==> n.fraction == [])
    ensures !StartsDigit(s[end..])
    ensures n.exponent.None? ==> !NextIn(s[end..], {'e' as int, 'E' as int})
    ensures n.exponent.None? && !n.point ==> !NextIn(s[end..], {'.' as int})
    ensures n.exponent.Some? && n.exponent.value.sign == [] && n.exponent.value.digits == [] ==> !NextIn(s[end..], {'+' as int, '-' as int})
    ensures n.point <==> Is(At(s, DigitsEnd(s, i)), '.')
    ensures !n.point ==> (n.exponent.Some? <==> Is(At(s, DigitsEnd(s, i)), 'e') || Is(At(s, DigitsEnd(s, i)), 'E'))
    ensures !n.point && n.exponent.None? ==> end == DigitsEnd(s, i)
  {
    hide DigitsEnd, Digits, StartsDigit, NextIn, Spans, Unsigned, WriteExponent;
    var w := DigitsEnd(s, i);
    DigitsTaken(s, i);
    InsideOf(s, i, w, s[i..w]);
    var point, fraction, f := FractionTaken(s, w);
    InsideOf(s, w, f, Point(point) + fraction);
    var e;
    e, end := ExponentTaken(s, f);
    InsideOf(s, f, end, WriteExponent(e));
    n := Written(sign, s[i..w], point, fraction, e);
    SpansOn(s, w, f, end, Point(point) + fraction, WriteExponent(e));
    SpansOn(s, i, w, end, s[i..w], Point(point) + fraction + WriteExponent(e));
    NothingBehind(n);
    Regroup(s[i..w], Point(point), fraction, WriteExponent(e));
    NextAt(s, w);
  }

  lemma InsideOf(s: Bytes, i: nat, j: nat, t: Bytes)
    requires Spans(s, i, j, t)
    ensures i <= j <= |s|
  {}

  lemma NextAt(s: Bytes, w: nat)
    requires w <= |s|
    ensures !NextIn(s[w..], {'.' as int}) <==> !Is(At(s, w), '.')
    ensures NextIn(s[w..], {'e' as int, 'E' as int}) <==> Is(At(s, w), 'e') || Is(At(s, w), 'E')
  {
    FromAt(s, w, s[w..], 0);
  }

  lemma NothingBehind(n: Number)
    requires n.Written?
    ensures Unsigned(n) == n.whole + (Point(n.point) + (n.fraction + WriteExponent(n.exponent)))
  {
    UnsignedText(n, []);
    assert Unsigned(n) + [] == Unsigned(n) && WriteExponent(n.exponent) + [] == WriteExponent(n.exponent);
  }

  lemma FractionTaken(s: Bytes, w: nat) returns (point: bool, fraction: Bytes, f: nat)
    requires w <= |s| && !StartsDigit(s[w..])
    ensures Spans(s, w, f, Point(point) + fraction) && Digits(fraction) && !StartsDigit(s[f..])
    ensures (point <==> Is(At(s, w), '.')) && (!point ==> f == w && fraction == [])
  {
    hide DigitsEnd;
    FromAt(s, w, s[w..], 0);
    point := Is(At(s, w), '.');
    if point {
      f := DigitsEnd(s, w + 1);
      fraction := s[w + 1..f];
      SpansByte(s, w);
      DigitsTaken(s, w + 1);
      SpansOn(s, w, w + 1, f, ['.' as int], fraction);
    } else {
      f, fraction := w, [];
      SpansHere(s, w);
      assert Point(false) + fraction == [];
    }
  }

  lemma Regroup(a: Bytes, b: Bytes, c: Bytes, d: Bytes)
    ensures a + (b + (c + d)) == a + (b + c + d)
  {}

  lemma {:induction false} HexTaken(s: Bytes, i: nat) returns (end: nat)
    requires i <= |s|
    ensures i <= end <= |s| && Spans(s, i, end, s[i..end]) && LooseDigits(s[i..end])
    ensures var rest := s[end..]; !(rest != [] && (IsHexDigit(rest[0]) || Between(rest[0], 'G', 'Z')))
    ensures HexChar(At(s, i)) != EOF ==> i < end
    decreases |s| - i
  {
    FromAt(s, i, s[i..], 0);
    HexCharExact(At(s, i));
    if HexChar(At(s, i)) == EOF {
      end := i;
      SpansHere(s, i);
    } else {
      end := HexTaken(s, i + 1);
      SpansSlice(s, i, end);
      assert s[i..end] == [s[i]] + s[i + 1..end];
    }
  }

  lemma HexadecimalTaken(s: Bytes, i: nat, sign: Bytes) returns (n: Number, end: nat)
    requires i + 1 < |s| && Is(s[i], '0') && (Is(s[i + 1], 'x') || Is(s[i + 1], 'X')) && HexChar(At(s, i + 2)) != EOF && IsSign(sign)
    ensures n.sign == sign && !n.Written? && Spans(s, i, end, Unsigned(n)) && NumberFits(n, s[end..])
  {
    hide LooseDigits;
    end := HexTaken(s, i + 2);
    n := Hexadecimal(sign, s[i + 1], s[i + 2..end]);
    SpansSlice(s, i, i + 2);
    SpansOn(s, i, i + 2, end, s[i..i + 2], s[i + 2..end]);
    assert Unsigned(n) == s[i..i + 2] + s[i + 2..end];
  }

  lemma ZeroTaken(s: Bytes, i: nat, sign: Bytes) returns (n: Number)
    requires i < |s| && Is(s[i], '0') && IsSign(sign)
    requires var c := At(s, i + 1);
             !(Is(c, 'x') || Is(c, 'X') || Between(c, '1', '9') || Is(c, '.') || Is(c, 'e') || Is(c, 'E'))
    ensures n.sign == sign && !n.Written? && Spans(s, i, i + 1, Unsigned(n)) && NumberFits(n, s[i + 1..])
  {
    n := Zero(sign);
    SpansByte(s, i);
    FromAt(s, i + 1, s[i + 1..], 0);
    assert Unsigned(n) == ['0' as int];
  }

  lemma SpelledTaken(s: Bytes, i: nat, sign: Bytes, accepts: Accepts) returns (n: Number, end: nat)
    requires i < |s| && (Is(s[i], 'I') || Is(s[i], 'N')) && IsSign(sign) && sign != []
    requires ReadUnsigned(s, i, sign == MINUS, accepts).Some?
    ensures n.sign == sign && !n.Written? && Spans(s, i, end, Unsigned(n)) && NumberFits(n, s[end..])
  {
    hide ReadIdentifier;
    SpelledNames();
    hide Ascii;
    assert s[i..][0] == s[i];
    LetterIsFirm(s[i..]);
    match ReadIdentifier(s, i)
    case Some((name, next)) =>
      NameTaken(s, i, name, next);
      end := next;
      n := if name == INFINITY then Unbounded(sign) else NoNumber(sign);
      assert Unsigned(n) == name;
  }

  lemma LetterIsFirm(t: Bytes)
    requires t != [] && Between(t[0], 'A', 'Z')
    ensures Firm(t)
  {
    FirmStart(t);
  }

  lemma WrittenTaken(s: Bytes, i: nat, sign: Bytes) returns (n: Number, end: nat)
    requires i <= |s| && IsSign(sign) && !Is(At(s, i), 'I') && !Is(At(s, i), 'N')
    requires sign == [] ==> Between(At(s, i), '0', '9') || Is(At(s, i), '.')
    requires Is(At(s, i), '0') ==> (var c := At(s, i + 1); Between(c, '1', '9') || Is(c, '.') || Is(c, 'e') || Is(c, 'E'))
    ensures n.Written? && n.sign == sign && Spans(s, i, end, Unsigned(n)) && NumberFits(n, s[end..])
  {
    hide Unsigned;
    n, end := DecimalTaken(s, i, sign);
    FirstDigits(s, i);
    FromAt(s, i, s[i..], 0);
    hide DigitsEnd, Spans, Digits, StartsDigit, GoodExponent;
    WholeTaken(s, i, n, end);
  }

  lemma WholeTaken(s: Bytes, i: nat, n: Number, end: nat)
    requires n.Written? && i <= DigitsEnd(s, i) <= |s| && n.whole == s[i..DigitsEnd(s, i)]
    ensures n.whole != [] ==> n.whole[0] == s[i]
    ensures |n.whole| > 1 ==> n.whole[1] == s[i + 1]
    ensures |n.whole| == DigitsEnd(s, i) - i
  {}

  lemma FirstDigits(s: Bytes, i: nat)
    requires i <= |s|
    ensures var end := DigitsEnd(s, i);
            && i <= end <= |s| && (Between(At(s, i), '0', '9') <==> i < end)
            && (i < end ==> (Between(At(s, i + 1), '0', '9') <==> i + 1 < end))
  {}

  lemma UnsignedTaken(s: Bytes, i: nat, sign: Bytes, accepts: Accepts) returns (n: Number, end: nat)
    requires i <= |s| && IsSign(sign) && ReadUnsigned(s, i, sign == MINUS, accepts).Some?
    requires sign == [] ==> Between(At(s, i), '0', '9') || Is(At(s, i), '.')
    ensures n.sign == sign && Spans(s, i, end, Unsigned(n)) && NumberFits(n, s[end..])
  {
    hide ReadDecimal, HexChar, ReadHex, Unsigned, NumberFits, AsDecimal, Spans;
    var c := At(s, i);
    if Is(c, 'I') || Is(c, 'N') {
      n, end := SpelledTaken(s, i, sign, accepts);
    } else if Is(c, '0') && (Is(At(s, i + 1), 'x') || Is(At(s, i + 1), 'X')) {
      n, end := HexadecimalTaken(s, i, sign);
    } else if Is(c, '0') && !(Between(At(s, i + 1), '1', '9') || Is(At(s, i + 1), '.') || Is(At(s, i + 1), 'e') || Is(At(s, i + 1), 'E')) {
      end := i + 1;
      n := ZeroTaken(s, i, sign);
    } else {
      n, end := WrittenTaken(s, i, sign);
    }
  }

  lemma NumberTaken(s: Bytes, i: nat, accepts: Accepts, v: Value, end: nat) returns (n: Number)
    requires i < |s| && StartsNumber(s[i]) && ReadNumber(s, i, accepts) == Some((v, end))
    ensures Spans(s, i, end, WriteNumber(n)) && GoodNumber(n, s[end..], accepts) && NumberValue(n) == v
  {
    hide ReadUnsigned, Unsigned, NumberFits, NumberValue, WriteNumber, Normal;
    var signed := Is(s[i], '+') || Is(s[i], '-');
    var k, sign: Bytes := if signed then i + 1 else i, if signed then [s[i]] else [];
    var stop;
    n, stop := UnsignedTaken(s, k, sign, accepts);
    NumberStarts(n, s[stop..]);
    if signed {
      SpansByte(s, i);
      SpansOn(s, i, k, stop, sign, Unsigned(n));
    }
    SpansIs(s, i, stop, WriteNumber(n));
    NumberRead(s, i, n, s[stop..], accepts);
  }

  // ---- values

  lemma WordTaken(s: Bytes, i: nat, name: Bytes, end: nat, v: Value)
    requires i <= |s| && Firm(s[i..]) && ReadIdentifier(s, i) == Some((name, end)) && Keyword(name) == Some(v)
    ensures IsWord(v) && WriteWord(v) == name && Spans(s, i, end, name) && !NamePart(s[end..])
  {
    hide ReadIdentifier, Firm, NamePart;
    NameTaken(s, i, name, end);
    WordsAre();
    SpelledNames();
    hide Ascii;
  }

  lemma QuotationTaken(s: Bytes, i: nat, text: Bytes, end: nat) returns (pieces: seq<Piece>)
    requires i < |s| && IsQuote(s[i]) && ReadString(s, i) == Some((text, end))
    ensures var x := Quotation(s[i], pieces);
            end <= |s| && GoodPieces(pieces, s[i], s[end..]) && Spans(s, i, end, [s[i]] + WritePieces(pieces, s[i])) && PiecesText(pieces) == text
  {
    hide ReadChars;
    pieces := PiecesTaken(s, i + 1, s[i], text, end);
    SpansByte(s, i);
    SpansOn(s, i, i + 1, end, [s[i]], WritePieces(pieces, s[i]));
  }

  lemma KeyTaken(s: Bytes, i: nat, text: Bytes, end: nat) returns (key: Key)
    requires i <= |s| && Firm(s[i..]) && ReadKey(s, i) == Some((text, end))
    ensures Spans(s, i, end, WriteKey(key)) && GoodKey(key, s[end..]) && KeyText(key) == text
  {
    hide ReadString, ReadIdentifier, Firm, NameBefore, GoodPieces, WritePieces, PiecesText;
    if Is(At(s, i), '"') || Is(At(s, i), '\'') {
      var pieces := QuotationTaken(s, i, text, end);
      key := Quoted(s[i], pieces);
    } else {
      NameTaken(s, i, text, end);
      key := Bare(text);
    }
  }

  lemma NameAndColonTaken(s: Bytes, i: nat, text: Bytes, end: nat) returns (key: Key, before: Gap)
    requires i <= |s| && Firm(s[i..]) && ReadName(s, i) == Some((text, end))
    ensures end <= |s| && GoodGap(before) && KeyText(key) == text && GoodKey(key, WriteGap(before) + ([':' as int] + s[end..]))
    ensures Spans(s, i, end, WriteKey(key) + (WriteGap(before) + [':' as int]))
  {
    hide ReadKey, SkipSpace, Firm, GoodKey, WriteKey, KeyText, GoodGap, WriteGap;
    match ReadKey(s, i)
    case Some((name, next)) =>
      key := KeyTaken(s, i, name, next);
      var colon := SkipSpace(s, next);
      before := GapTaken(s, next);
      SpansByte(s, colon);
      SpansOn(s, next, colon, colon + 1, WriteGap(before), [':' as int]);
      SpansOn(s, i, next, colon + 1, WriteKey(key), WriteGap(before) + [':' as int]);
      assert WriteGap(before) + [':' as int] + s[end..] == WriteGap(before) + ([':' as int] + s[end..]);
  }

  lemma NotPast(s: Bytes, i: nat, depth: int, accepts: Accepts)
    requires ParseValue(s, i, depth, accepts).Some?
    ensures depth >= 0 && SkipSpace(s, i) < |s|
  {
    hide ParseItems, ParseMembers, ReadString, ReadNumber, ReadIdentifier;
  }

  lemma FlatTaken(s: Bytes, i: nat, j: nat, v: Value, end: nat, depth: int, accepts: Accepts) returns (x: Syntax)
    requires j == SkipSpace(s, i) < |s| && Firm(s[j..]) && s[j] !in {'{' as int, '[' as int}
    requires ParseValue(s, i, depth, accepts) == Some((v, end))
    ensures Spans(s, j, end, Write(x)) && Good(x, s[end..], accepts) && Meaning(x) == v
  {
    hide SkipSpace, ReadString, ReadNumber, ReadIdentifier, Keyword, Firm, ParseItems, ParseMembers, GoodPieces, GoodNumber;
    hide NamePart, WriteWord, WriteNumber, WritePieces, NumberValue;
    if IsQuote(s[j]) {
      var text := ReadString(s, j).value.0;
      var pieces := QuotationTaken(s, j, text, end);
      x := Quotation(s[j], pieces);
    } else if StartsNumber(s[j]) {
      var n := NumberTaken(s, j, accepts, v, end);
      x := Numeral(n);
    } else {
      WordTaken(s, j, ReadIdentifier(s, j).value.0, end, v);
      x := Word(v);
    }
  }

  lemma {:induction false} ValueTaken(s: Bytes, i: nat, v: Value, end: nat, depth: int, accepts: Accepts) returns (gap: Gap, x: Syntax)
    requires i <= |s| && ParseValue(s, i, depth, accepts) == Some((v, end))
    ensures end <= |s| && GoodGap(gap) && Good(x, s[end..], accepts) && Meaning(x) == v
    ensures Spans(s, i, SkipSpace(s, i), WriteGap(gap)) && Spans(s, SkipSpace(s, i), end, Write(x))
    decreases Left(s, i), 1
  {
    hide SkipSpace, Firm, ParseValue, ParseItems, ParseMembers, GoodGap, WriteGap, WriteItems, WriteMembers, GoodItems, GoodMembers;
    hide ItemValues, MemberValues;
    NotPast(s, i, depth, accepts);
    var j := SkipSpace(s, i);
    gap := GapTaken(s, i);
    AtToken(s, i, j, depth, accepts);
    SpansByte(s, j);
    if Is(s[j], '[') {
      var items := ItemsTaken(s, j + 1, v, end, depth - 1, accepts, []);
      x := Brackets(items);
      SpansOn(s, j, j + 1, end, [s[j]], WriteItems(items));
      assert [] + ItemValues(items) == ItemValues(items);
    } else if Is(s[j], '{') {
      var members := MembersTaken(s, j + 1, v, end, depth - 1, accepts, []);
      x := Braces(members);
      SpansOn(s, j, j + 1, end, [s[j]], WriteMembers(members));
      assert [] + MemberValues(members) == MemberValues(members);
    } else {
      x := FlatTaken(s, i, j, v, end, depth, accepts);
    }
  }

  /** Where an element starts, and that there is one. */
  lemma ElementAt(s: Bytes, i: nat, depth: int, accepts: Accepts, done: seq<Value>)
    requires ParseItems(s, i, depth, accepts, done).Some?
    ensures var j := NextElement(s, i); j < |s| && (s[j] != ']' as int ==> ParseValue(s, j, depth, accepts).Some?)
  {
    hide NextElement, ParseValue;
  }

  lemma MemberAt(s: Bytes, i: nat, depth: int, accepts: Accepts, done: seq<Member>)
    requires ParseMembers(s, i, depth, accepts, done).Some?
    ensures var j := NextElement(s, i);
            j < |s| && (s[j] != '}' as int ==> ReadName(s, j).Some? && ParseValue(s, ReadName(s, j).value.1, depth, accepts).Some?)
  {
    hide NextElement, ParseValue, ReadName;
  }

  lemma ItemsEnd(s: Bytes, i: nat, depth: int, accepts: Accepts, done: seq<Value>)
    requires var j := NextElement(s, i); j < |s| && s[j] == ']' as int
    ensures ParseItems(s, i, depth, accepts, done) == Some((List(done), NextElement(s, i) + 1))
  {
    hide NextElement, ParseValue;
  }

  lemma MembersEnd(s: Bytes, i: nat, depth: int, accepts: Accepts, done: seq<Member>)
    requires var j := NextElement(s, i); j < |s| && s[j] == '}' as int
    ensures ParseMembers(s, i, depth, accepts, done) == Some((Object(done), NextElement(s, i) + 1))
  {
    hide NextElement, ParseValue, ReadName;
  }

  lemma NothingSkipped(s: Bytes, j: nat, gap: Gap)
    requires j <= |s| && Firm(s[j..]) && Spans(s, j, SkipSpace(s, j), WriteGap(gap))
    ensures SkipSpace(s, j) == j
  {
    hide SkipSpace, Firm;
    FirmStops(s, j, s[j..]);
  }

  lemma {:induction false} ItemsTaken(
    s: Bytes, i: nat, v: Value, end: nat, depth: int, accepts: Accepts, done: seq<Value>) returns (items: Items)
    requires i <= |s| && ParseItems(s, i, depth, accepts, done) == Some((v, end))
    ensures end <= |s| && Spans(s, i, end, WriteItems(items)) && GoodItems(items, s[end..], accepts)
    ensures v == List(done + ItemValues(items))
    decreases Left(s, i), 2
  {
    hide NextElement, ParseValue, ParseItems, Good, Write, Meaning, Firm, WriteSeparator, GoodSeparator, SkipSpace, WriteGap, GoodGap;
    ElementAt(s, i, depth, accepts, done);
    var j := NextElement(s, i);
    var front := SeparatorTaken(s, i);
    if s[j] == ']' as int {
      items := LastItem(front);
      ItemsEnd(s, i, depth, accepts, done);
      SpansByte(s, j);
      SpansOn(s, i, j, j + 1, WriteSeparator(front), [']' as int]);
      assert done + [] == done;
    } else {
      var (w, next) := ParseValue(s, j, depth, accepts).value;
      var gap, value := ValueTaken(s, j, w, next, depth, accepts);
      NothingSkipped(s, j, gap);
      ItemsStep(s, i, j, w, next, depth, accepts, done);
      var more := ItemsTaken(s, next, v, end, depth, accepts, done + [w]);
      items := NextItem(front, value, more);
      SpansOn(s, j, next, end, Write(value), WriteItems(more));
      SpansOn(s, i, j, end, WriteSeparator(front), Write(value) + WriteItems(more));
      assert done + [w] + ItemValues(more) == done + ([w] + ItemValues(more));
    }
  }

  lemma {:induction false} MembersTaken(
    s: Bytes, i: nat, v: Value, end: nat, depth: int, accepts: Accepts, done: seq<Member>) returns (members: Members)
    requires i <= |s| && ParseMembers(s, i, depth, accepts, done) == Some((v, end))
    ensures end <= |s| && Spans(s, i, end, WriteMembers(members)) && GoodMembers(members, s[end..], accepts)
    ensures v == Object(done + MemberValues(members))
    decreases Left(s, i), 0
  {
    hide NextElement, ParseValue, ParseMembers, Good, Write, Meaning, Firm, WriteSeparator, GoodSeparator, SkipSpace, WriteGap, GoodGap;
    hide ReadName, WriteKey, KeyText, GoodKey;
    MemberAt(s, i, depth, accepts, done);
    var j := NextElement(s, i);
    var front := SeparatorTaken(s, i);
    if s[j] == '}' as int {
      members := LastMember(front);
      MembersEnd(s, i, depth, accepts, done);
      SpansByte(s, j);
      SpansOn(s, i, j, j + 1, WriteSeparator(front), ['}' as int]);
      assert done + [] == done;
    } else {
      var (text, k) := ReadName(s, j).value;
      var key, before := NameAndColonTaken(s, j, text, k);
      var (w, next) := ParseValue(s, k, depth, accepts).value;
      var after, value := ValueTaken(s, k, w, next, depth, accepts);
      MembersStep(s, i, j, text, k, w, next, depth, accepts, done);
      var more := MembersTaken(s, next, v, end, depth, accepts, done + [Member(text, w)]);
      members := NextMember(front, key, before, after, value, more);
      MemberSpans(s, i, j, k, SkipSpace(s, k), next, end, members);
      assert done + [Member(text, w)] + MemberValues(more) == done + ([Member(text, w)] + MemberValues(more));
    }
  }

  lemma MemberSpans(s: Bytes, i: nat, j: nat, k: nat, l: nat, next: nat, end: nat, members: Members)
    requires members.NextMember? && Spans(s, i, j, WriteSeparator(members.front))
    requires Spans(s, j, k, WriteKey(members.key) + (WriteGap(members.beforeColon) + [':' as int]))
    requires Spans(s, k, l, WriteGap(members.afterColon)) && Spans(s, l, next, Write(members.value))
    requires Spans(s, next, end, WriteMembers(members.more))
    ensures Spans(s, i, end, WriteMembers(members))
    ensures WriteGap(members.beforeColon) + ([':' as int] + s[k..])
         == WriteAfterKey(members.beforeColon, members.afterColon, Write(members.value) + (WriteMembers(members.more) + s[end..]))
  {
    hide WriteSeparator, WriteKey, WriteGap, Write;
    var a, b, c, d := WriteKey(members.key), WriteGap(members.beforeColon), WriteGap(members.afterColon), Write(members.value);
    var e := WriteMembers(members.more);
    SpansOn(s, l, next, end, d, e);
    SpansOn(s, k, l, end, c, d + e);
    SpansOn(s, j, k, end, a + (b + [':' as int]), c + (d + e));
    Colon(a, b, c + (d + e));
    SpansOn(s, i, j, end, WriteSeparator(members.front), a + (b + [':' as int]) + (c + (d + e)));
    hide WriteMembers;
    Apart(c, d, e, s[end..]);
  }

  lemma Colon(a: Bytes, b: Bytes, c: Bytes)
    ensures a + (b + [':' as int]) + c == a + (b + ([':' as int] + c))
  {}

  // ---- documents

  lemma {:induction false} LineToEnd(s: Bytes, i: nat)
    requires i <= |s| && PastLine(s, i) > |s|
    ensures forall k :: 0 <= k < |s[i..]| ==> !StartsLineEnd(s[i..][k..])
    decreases |s| - i
  {
    var t := s[i..];
    FromAt(s, i, t, 0);
    FromAt(s, i, t, 1);
    FromAt(s, i, t, 2);
    if t != [] {
      LineToEnd(s, i + 1);
      forall k | 0 <= k < |t| ensures !StartsLineEnd(t[k..]) {
        if k == 0 {
          assert t[0..] == t && t[..1] == [t[0]];
          if |t| >= 3 { assert t[..3] == [t[0], t[1], t[2]]; }
        } else {
          assert t[k..] == s[i + 1..][k - 1..];
        }
      }
    }
  }

  lemma {:induction false} BlockToEnd(s: Bytes, i: nat)
    requires i <= |s| && PastComment(s, i) > |s|
    ensures forall k :: 0 <= k < |s[i..]| ==> !(CLOSES <= s[i..][k..])
    decreases |s| - i
  {
    var t := s[i..];
    FromAt(s, i, t, 0);
    FromAt(s, i, t, 1);
    if |t| >= 2 {
      BlockToEnd(s, i + 1);
      forall k | 0 <= k < |t| ensures !(CLOSES <= t[k..]) {
        if k == 0 {
          assert t[0..] == t && t[..2] == [t[0], t[1]];
        } else {
          assert t[k..] == s[i + 1..][k - 1..];
        }
      }
    }
  }

  lemma OpenTaken(s: Bytes, i: nat) returns (tail: Tail)
    requires i <= |s| && CommentEnd(s, i) > |s| && (SLASHES <= s[i..] || OPENS <= s[i..])
    ensures GoodTail(tail) && s[i..] == WriteTail(tail)
  {
    hide SkipSpace, PastLine, PastComment, StartsLineEnd;
    CommentAhead(s, i);
    if Is(At(s, i + 1), '/') {
      LineToEnd(s, i + 2);
      tail := OpenLine(s[i + 2..]);
    } else {
      BlockToEnd(s, i + 2);
      tail := OpenBlock(s[i + 2..]);
    }
  }

  /** Where nothing but blanks is left, the last of them may be a comment that is cut off. */
  lemma {:induction false} TailTaken(s: Bytes, i: nat) returns (gap: Gap, tail: Tail)
    requires i <= |s| && At(s, SkipSpace(s, i)) == EOF
    ensures GoodGap(gap) && GoodTail(tail) && s[i..] == WriteGap(gap) + WriteTail(tail)
    decreases |s| - i
  {
    hide SkipSpace, Firm, GoodBlank, WriteBlank, CommentEnd, StartsWhite;
    var t := s[i..];
    if SkipSpace(s, i) <= |s| {
      gap := GapTaken(s, i);
      tail := NoTail;
    } else if StartsWhite(t) {
      var b, n := WhiteTaken(s, i);
      var more;
      more, tail := TailTaken(s, n);
      gap := OneMoreBlank(s, i, n, b, more, tail);
    } else {
      NotFirm(s, i);
      if CommentEnd(s, i) <= |s| {
        var b := CommentTaken(s, i);
        var more;
        more, tail := TailTaken(s, CommentEnd(s, i));
        gap := OneMoreBlank(s, i, CommentEnd(s, i), b, more, tail);
      } else {
        tail := OpenTaken(s, i);
        gap := [];
        assert WriteGap([]) + WriteTail(tail) == WriteTail(tail);
      }
    }
  }

  lemma NotFirm(s: Bytes, i: nat)
    requires i <= |s| && SkipSpace(s, i) > |s| && !StartsWhite(s[i..])
    ensures SLASHES <= s[i..] || OPENS <= s[i..]
  {
    hide SkipSpace, StartsWhite;
    if Firm(s[i..]) { FirmStops(s, i, s[i..]); }
  }

  lemma OneMoreBlank(s: Bytes, i: nat, n: nat, b: Blank, more: Gap, tail: Tail) returns (gap: Gap)
    requires GoodBlank(b) && Spans(s, i, n, WriteBlank(b)) && GoodGap(more) && s[n..] == WriteGap(more) + WriteTail(tail)
    ensures GoodGap(gap) && s[i..] == WriteGap(gap) + WriteTail(tail)
  {
    hide GoodBlank, WriteBlank;
    gap := [b] + more;
    assert gap[0] == b && gap[1..] == more;
    hide WriteTail;
    Assoc(WriteBlank(b), WriteGap(more), WriteTail(tail));
  }

  lemma DocumentTaken(s: Bytes, depth: int, accepts: Accepts, v: Value) returns (d: Document)
    requires Parse(s, depth, accepts) == Some(v)
    ensures GoodDocument(d, accepts) && WriteDocument(d) == s && Meaning(d.value) == v && Height(v) <= depth
  {
    hide ParseValue, SkipSpace, Good, GoodGap, GoodTail, Write, WriteGap, WriteTail, Meaning, Height;
    var (w, next) := ParseValue(s, 0, depth, accepts).value;
    DepthIsExact(s, 0, depth, depth, accepts);
    var front, x := ValueTaken(s, 0, v, next, depth, accepts);
    var behind, tail := TailTaken(s, next);
    d := Document(front, x, behind, tail);
    SpansOn(s, 0, SkipSpace(s, 0), next, WriteGap(front), Write(x));
    assert s == s[0..];
    assert WriteGap(front) + Write(x) + s[next..] == WriteGap(front) + (Write(x) + s[next..]);
  }

  /** The documents that `parse` accepts are exactly those of the language that are nested no deeper than the
      limit, and each is read as the value it stands for. */
  lemma AcceptsExactly(s: Bytes, depth: int, accepts: Accepts, v: Value)
    ensures Parse(s, depth, accepts) == Some(v)
       <==> exists d: Document :: GoodDocument(d, accepts) && WriteDocument(d) == s && Meaning(d.value) == v && Height(v) <= depth
  {
    hide Parse, GoodDocument, WriteDocument, Meaning, Height;
    if Parse(s, depth, accepts) == Some(v) {
      var d := DocumentTaken(s, depth, accepts, v);
    }
    forall d: Document | GoodDocument(d, accepts) && WriteDocument(d) == s && Meaning(d.value) == v && Height(v) <= depth
      ensures Parse(s, depth, accepts) == Some(v)
    {
      DocumentRead(d, depth, accepts);
    }
  }
}
