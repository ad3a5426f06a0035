/** Printing and reading INI text undo each other, one line at a time. */
module IniLaws {
  import opened Wrappers
  import opened IniText
  import opened IniSyntax

  predicate CleanSection(n: string) {
    OneLine(n) && ']' !in n && (n != "" ==> !IsSpace(n[0]) && !IsSpace(n[|n| - 1]))
  }

  predicate CleanKey(k: string) {
    && k != "" && OneLine(k) && '=' !in k
    && !IsSpace(k[0]) && !IsComment(k[0]) && k[0] != '[' && !IsSpace(k[|k| - 1])
  }

  /** Whether some line of the value reads as the end tag. */
  predicate HasTagLine(v: string, tag: string)
    decreases |v|
  {
    var line, tail := LineOf(v), TailOf(v);
    Fold(TrimTag(line)) == Fold(tag) || (tail != "" && HasTagLine(AfterNewLine(tail), tag))
  }

  predicate CleanLines(v: string, tag: string) {
    '\r' !in v && !HasTagLine(v, tag)
  }

  /** The values that survive: those of one trimmed line, except that with multi-line values `<<<` may
      not come first, and with multi-line values also those of several lines. */
  predicate CleanValueFor(cfg: Config, v: string, tag: string) {
    if NeedsMultiLine(v) then cfg.multiLine && CleanLines(v, tag) else !(cfg.multiLine && "<<<" <= v)
  }

  predicate CleanValue(cfg: Config, v: string) {
    CleanValueFor(cfg, v, END_OF_TEXT)
  }

  // ---- lines

  lemma LineIs(a: string, rest: string)
    requires OneLine(a) && (rest != "" ==> IsNewLine(rest[0]))
    ensures LineOf(a + rest) == a && TailOf(a + rest) == rest
  {
    var s := a + rest;
    forall j | 0 <= j < |a| ensures !IsNewLine(s[j]) { assert a[j] in a; }
    UpToUnique(s, '\n', |a|);
    assert s[..|a|] == a && s[|a|..] == rest;
  }

  lemma AfterFeed(s: string)
    ensures AfterNewLine("\n" + s) == s && NewLineLength("\n" + s) == 1
  {}

  /** The first line of a text without carriage returns, and the lines after it. */
  lemma SplitsAtFeed(v: string) returns (after: string)
    requires '\r' !in v && TailOf(v) != ""
    ensures after == AfterNewLine(TailOf(v)) && v == LineOf(v) + ("\n" + after) && '\r' !in after && |after| < |v|
  {
    var tail := TailOf(v);
    assert v == LineOf(v) + tail && tail[0] in v;
    after := tail[1..];
    assert tail == "\n" + after;
    AfterFeed(after);
    assert forall c :: c in after ==> c in v;
  }

  lemma UpToIs(a: string, c: char, rest: string)
    requires OneLine(a) && c !in a && rest != "" && rest[0] == c
    ensures UpTo(a + rest, c) == |a| && (a + rest)[..|a|] == a && (a + rest)[|a|..] == rest
  {
    var s := a + rest;
    forall j | 0 <= j < |a| ensures s[j] != c && !IsNewLine(s[j]) { assert a[j] in a; }
    UpToUnique(s, c, |a|);
  }

  lemma TrimEndIs(a: string, pad: string)
    requires (a != "" ==> !IsSpace(a[|a| - 1])) && forall j :: 0 <= j < |pad| ==> IsSpace(pad[j])
    ensures TrimEnd(a + pad) == a
  {
    TrimEndUnique(a + pad, |a|);
    assert (a + pad)[..|a|] == a;
  }

  lemma TrimTagIs(a: string)
    requires a != "" ==> !IsSpace(a[|a| - 1])
    ensures TrimTag(a) == a
  {}

  // ---- multi-line values

  /** What follows the lines of a printed multi-line value. */
  function Closing(tag: string, rest: string): string {
    "\n" + (tag + ("\n" + rest))
  }

  /** What an opening line can name as end tag: nothing as well, in a bare `<<<`. */
  predicate IsTag(tag: string) {
    OneLine(tag) && (tag != "" ==> !IsSpace(tag[|tag| - 1]))
  }

  lemma ReadsClosing(done: string, tag: string, rest: string)
    requires done != "" && IsTag(tag)
    ensures MultiLine(tag + ("\n" + rest), done, false, tag) == Some((done[..|done| - 1], rest))
  {
    LineIs(tag, "\n" + rest);
    TrimTagIs(tag);
    AfterFeed(rest);
  }

  /** One line that is not the end tag. */
  lemma ReadsLine(line: string, s: string, done: string, tag: string)
    requires OneLine(line) && Fold(TrimTag(line)) != Fold(tag)
    ensures MultiLine(line + ("\n" + s), done, false, tag) == MultiLine(s, done + line + "\n", false, tag)
  {
    LineIs(line, "\n" + s);
    AfterFeed(s);
  }

  lemma {:induction false} ReadsLines(v: string, done: string, tag: string, rest: string)
    requires CleanLines(v, tag) && IsTag(tag)
    ensures MultiLine(v + Closing(tag, rest), done, false, tag) == Some((done + v, rest))
    decreases |v|
  {
    hide MultiLine;
    var line := LineOf(v);
    if TailOf(v) != "" {
      var after := SplitsAtFeed(v);
      LineThenMore(line, after, Closing(tag, rest), done);
      ReadsLine(line, after + Closing(tag, rest), done, tag);
      ReadsLines(after, done + line + "\n", tag, rest);
    } else {
      assert line == v;
      LineThenMore(v, "", tag + ("\n" + rest), done);
      ReadsLine(v, tag + ("\n" + rest), done, tag);
      ReadsClosing(done + v + "\n", tag, rest);
      assert (done + v + "\n")[..|done + v + "\n"| - 1] == done + v;
    }
  }

  lemma LineThenMore(line: string, after: string, closing: string, done: string)
    ensures line + ("\n" + after) + closing == line + ("\n" + (after + closing))
    ensures done + line + "\n" + after == done + (line + ("\n" + after))
    ensures "" + closing == closing
  {}

  /** Behind its first line the text of a value never gets a carriage return. */
  lemma {:induction false} ReadsNoReturns(s: string, done: string, moved: bool, tag: string)
    requires '\r' !in done && done != ""
    ensures var r := MultiLine(s, done, moved, tag); r.Some? ==> '\r' !in r.value.0
    decreases |s|
  {
    var line, tail := LineOf(s), TailOf(s);
    assert '\r' !in line && '\r' !in TrimTag(line);
    if tail != "" {
      ReadsNoReturns(AfterNewLine(tail), done + line + "\n", moved || NewLineLength(tail) == 2, tag);
    }
  }

  lemma ReturnsAreLost(v: string, tag: string, rest: string)
    requires '\r' in v
    ensures MultiLine(v + Closing(tag, rest), "", false, tag) != Some((v, rest))
  {
    var s := v + Closing(tag, rest);
    var line, tail := LineOf(s), TailOf(s);
    var i :| 0 <= i < |v| && v[i] == '\r';
    assert |line| <= i by { assert s[i] == '\r'; }
    if Fold(TrimTag(line)) != Fold(tag) {
      ReadsNoReturns(AfterNewLine(tail), "" + line + "\n", NewLineLength(tail) == 2, tag);
    }
  }

  /** Reading stops at the first end tag, so one inside the value leaves more than `rest` unread. */
  lemma {:induction false} StopsAtTag(v: string, done: string, tag: string, rest: string)
    requires '\r' !in v && HasTagLine(v, tag)
    ensures var r := MultiLine(v + Closing(tag, rest), done, false, tag); r.Some? ==> |r.value.1| > |rest|
    decreases |v|
  {
    var line := LineOf(v);
    if TailOf(v) != "" {
      var after := SplitsAtFeed(v);
      LineThenMore(line, after, Closing(tag, rest), done);
      if Fold(TrimTag(line)) == Fold(tag) {
        StopsHere(line, after + Closing(tag, rest), done, tag);
      } else {
        ReadsLine(line, after + Closing(tag, rest), done, tag);
        StopsAtTag(after, done + line + "\n", tag, rest);
      }
    } else {
      assert line == v;
      assert v + Closing(tag, rest) == v + ("\n" + (tag + ("\n" + rest)));
      StopsHere(v, tag + ("\n" + rest), done, tag);
    }
  }

  lemma StopsHere(line: string, s: string, done: string, tag: string)
    requires OneLine(line) && Fold(TrimTag(line)) == Fold(tag)
    ensures var r := MultiLine(line + ("\n" + s), done, false, tag); r.Some? ==> r.value.1 == s
  {
    LineIs(line, "\n" + s);
    AfterFeed(s);
  }

  /** Printed between its tags, a value is read back, and the text after it left alone, exactly when
      it has no carriage return and no line that reads as the end tag. */
  lemma MultiLineExact(v: string, tag: string, rest: string)
    requires IsTag(tag)
    ensures MultiLine(v + Closing(tag, rest), "", false, tag) == Some((v, rest)) <==> CleanLines(v, tag)
  {
    hide MultiLine, Closing, HasTagLine;
    if CleanLines(v, tag) {
      ReadsLines(v, "", tag, rest);
      assert "" + v == v;
    } else if '\r' in v {
      ReturnsAreLost(v, tag, rest);
    } else {
      StopsAtTag(v, "", tag, rest);
    }
  }

  // ---- keys and values

  lemma FindsKey(cfg: Config, ptr: Pointer, s: string, end: nat)
    requires s != "" && !IsSpace(s[0]) && !IsComment(s[0]) && s[0] != '['
    requires end == UpTo(s, '=') && 0 < end < |s| && s[end] == '='
    ensures var key := TrimEnd(s[..end]); Find(cfg, ptr, s) == FindValue(cfg, ptr.EndedBy(key), key, AfterBlanks(s[end + 1..]))
  {
    NoSpacesPast(ptr, s);
  }

  lemma NoSpacesPast(ptr: Pointer, s: string)
    requires s != "" && !IsSpace(s[0])
    ensures AfterSpaces(s) == s && ptr.Past(s[..Spaces(s)]) == ptr
  {
    if ptr.Open? { assert ptr.text + "" == ptr.text; }
  }

  lemma BlankIsSkipped(s: string)
    ensures AfterBlanks(" " + s) == AfterBlanks(s)
  {
    assert (" " + s)[1..] == s;
  }

  lemma KeyIsFoundBefore(cfg: Config, ptr: Pointer, k: string, pad: string, after: string)
    requires CleanKey(k) && OneLine(pad) && '=' !in pad && forall j :: 0 <= j < |pad| ==> IsSpace(pad[j])
    ensures Find(cfg, ptr, k + pad + ("=" + after)) == FindValue(cfg, ptr.EndedBy(k), k, AfterBlanks(after))
  {
    hide FindValue, Find, AfterBlanks;
    var named, s := k + pad, k + pad + ("=" + after);
    UpToIs(named, '=', "=" + after);
    TrimEndIs(k, pad);
    assert s[0] == k[0] && s[..|named|] == named && s[|named| + 1..] == after;
    FindsKey(cfg, ptr, s, |named|);
  }

  /** A clean key is found in front of whatever the value is. */
  lemma KeyIsFound(cfg: Config, ptr: Pointer, k: string, tail: string)
    requires CleanKey(k)
    ensures Find(cfg, ptr, k + (EqualsSign(cfg) + tail)) == FindValue(cfg, ptr.EndedBy(k), k, AfterBlanks(tail))
  {
    hide FindValue, Find, AfterBlanks;
    if cfg.spaces {
      assert k + (EqualsSign(cfg) + tail) == k + " " + ("=" + (" " + tail));
      KeyIsFoundBefore(cfg, ptr, k, " ", " " + tail);
      BlankIsSkipped(tail);
    } else {
      assert k + (EqualsSign(cfg) + tail) == k + "" + ("=" + tail);
      KeyIsFoundBefore(cfg, ptr, k, "", tail);
    }
  }

  /** The line of a value that needs no more than a line. */
  lemma ValueLine(cfg: Config, section: string, k: string, v: string, rest: string)
    requires !NeedsMultiLine(v)
    ensures FindValue(cfg, section, k, AfterBlanks(v + ("\n" + rest))) ==
            if cfg.multiLine && "<<<" <= v then
              match MultiLine(rest, "", false, v[3..])
              case None => NoMore
              case Some((text, rest')) => ItemFound(section, Item(k, text), rest')
            else ItemFound(section, Item(k, v), rest)
  {
    hide MultiLine;
    var s := v + ("\n" + rest);
    assert Blanks(s) == 0 && s[0..] == s by { assert s[0] == if v == "" then '\n' else v[0]; }
    LineIs(v, "\n" + rest);
    AfterFeed(rest);
    assert v + "" == v;
    TrimEndIs(v, "");
  }

  /** The lines of a value that is printed between tags. */
  lemma TaggedLines(cfg: Config, section: string, k: string, v: string, tag: string, rest: string)
    requires IsTag(tag) && cfg.multiLine
    ensures var s := "<<<" + tag + "\n" + v + "\n" + tag + "\n" + rest;
            FindValue(cfg, section, k, AfterBlanks(s)) ==
            match MultiLine(v + Closing(tag, rest), "", false, tag)
            case None => NoMore
            case Some((text, rest')) => ItemFound(section, Item(k, text), rest')
  {
    hide MultiLine, FindValue;
    var opening := "<<<" + tag;
    assert "<<<" + tag + "\n" + v + "\n" + tag + "\n" + rest == opening + ("\n" + (v + Closing(tag, rest)));
    assert opening[0] == '<' && opening[3..] == tag;
    assert opening[|opening| - 1] == if tag == "" then '<' else tag[|tag| - 1];
    assert OneLine(opening);
    ValueLine(cfg, section, k, opening, v + Closing(tag, rest));
  }

  /** Whatever is found is clean. */
  lemma FoundValueIsClean(cfg: Config, section: string, key: string, v: string)
    requires v != "" ==> !IsSpace(v[0]) || IsNewLine(v[0])
    ensures var f := FindValue(cfg, section, key, v); f.ItemFound? && NeedsMultiLine(f.item.value) ==> cfg.multiLine
  {
    var line := LineOf(v);
    var value := TrimEnd(line);
    assert forall c :: c in value ==> c in line;
    assert value != "" ==> value[0] == v[0] && value[0] in line;
  }

  predicate CleanFound(cfg: Config, f: Found) {
    match f
    case NoMore => true
    case SectionFound(name, _) => CleanSection(name)
    case ItemFound(_, item, _) => CleanKey(item.key) && (NeedsMultiLine(item.value) ==> cfg.multiLine)
  }

  lemma {:induction false} FoundIsClean(cfg: Config, ptr: Pointer, s: string)
    ensures CleanFound(cfg, Find(cfg, ptr, s))
    decreases |s|, 1
  {
    hide CleanFound;
    FoundAtIsClean(cfg, ptr.Past(s[..Spaces(s)]), AfterSpaces(s));
  }

  lemma {:induction false} FoundAtIsClean(cfg: Config, ptr: Pointer, a: string)
    requires a != "" ==> !IsSpace(a[0])
    ensures CleanFound(cfg, FindAt(cfg, ptr, a))
    decreases |a|, 0
  {
    if a == "" {
    } else if IsComment(a[0]) {
      var (text, rest) := Comment(a, "");
      FoundIsClean(cfg, Ended(ptr.EndedBy(text)), rest);
    } else if a[0] == '[' {
      FoundNameIsClean(cfg, AfterSpaces(a[1..]));
    } else {
      var end := UpTo(a, '=');
      if end == |a| || a[end] != '=' {
        FoundIsClean(cfg, ptr.Past(a[..end]), a[end..]);
      } else if end == 0 {
        FoundIsClean(cfg, ptr.Past(LineOf(a)), TailOf(a));
      } else {
        var key := TrimEnd(a[..end]);
        TrimmedKeyIsClean(a, end);
        FoundValueIsClean(cfg, ptr.EndedBy(key), key, AfterBlanks(a[end + 1..]));
      }
    }
  }

  lemma {:induction false} FoundNameIsClean(cfg: Config, b: string)
    requires b != "" ==> !IsSpace(b[0])
    ensures CleanFound(cfg, FindName(cfg, b))
    decreases |b|, 2
  {
    var end := UpTo(b, ']');
    if end == |b| || b[end] != ']' {
      FoundIsClean(cfg, Open(b[..end]), b[end..]);
    } else {
      TrimmedNameIsClean(b, end);
    }
  }

  lemma TrimmedNameIsClean(b: string, end: nat)
    requires end == UpTo(b, ']') && (b != "" ==> !IsSpace(b[0]))
    ensures CleanSection(TrimEnd(b[..end]))
  {
    var n := TrimEnd(b[..end]);
    forall c | c in n ensures c in b[..end] && !IsNewLine(c) && c != ']' {}
  }

  lemma TrimmedKeyIsClean(a: string, end: nat)
    requires 0 < end == UpTo(a, '=') && !IsSpace(a[0]) && !IsComment(a[0]) && a[0] != '['
    ensures CleanKey(TrimEnd(a[..end]))
  {
    var k := TrimEnd(a[..end]);
    assert a[..end][0] == a[0];
    forall c | c in k ensures c in a[..end] && !IsNewLine(c) && c != '=' {}
  }

  /** A printed key and value are read back, and the text after them left alone, exactly when both
      are clean. */
  lemma ItemExact(cfg: Config, ptr: Pointer, item: Item, rest: string)
    ensures Find(cfg, ptr, PrintItem(cfg, item) + rest) == ItemFound(ptr.EndedBy(item.key), item, rest)
        <==> CleanKey(item.key) && CleanValue(cfg, item.value)
  {
    ItemReads(cfg, ptr, item, END_OF_TEXT, rest);
  }

  lemma ItemReads(cfg: Config, ptr: Pointer, item: Item, tag: string, rest: string)
    requires IsTag(tag)
    ensures Find(cfg, ptr, item.key + EqualsSign(cfg) + PrintValue(cfg, item.value, tag) + "\n" + rest)
            == ItemFound(ptr.EndedBy(item.key), item, rest)
        <==> CleanKey(item.key) && CleanValueFor(cfg, item.value, tag)
  {
    hide Find, FindValue, MultiLine;
    var k, v, section := item.key, item.value, ptr.EndedBy(item.key);
    var tail := PrintValue(cfg, v, tag) + "\n" + rest;
    assert k + EqualsSign(cfg) + PrintValue(cfg, v, tag) + "\n" + rest == k + (EqualsSign(cfg) + tail);
    FoundIsClean(cfg, ptr, k + (EqualsSign(cfg) + tail));
    if CleanKey(k) {
      KeyIsFound(cfg, ptr, k, tail);
      if !NeedsMultiLine(v) {
        assert tail == v + ("\n" + rest);
        ValueLine(cfg, section, k, v, rest);
      } else if cfg.multiLine {
        assert tail == "<<<" + tag + "\n" + v + "\n" + tag + "\n" + rest;
        TaggedLines(cfg, section, k, v, tag, rest);
        MultiLineExact(v, tag, rest);
      }
    }
  }

  // ---- where multi-line values differ from their documentation

  /** A value whose first line is its end tag is never read as the empty value that it stands for. With an
      empty tag it ends the loading; the value is all the text from the tag on when that has no spaces
      behind it and is not the end of the text, and the tag itself otherwise. */
  lemma NoLinesExact(s: string, tag: string)
    requires Fold(TrimTag(LineOf(s))) == Fold(tag)
    ensures MultiLine(s, "", false, tag).None? <==> tag == ""
    ensures tag != "" ==>
            var line, (v, rest) := LineOf(s), MultiLine(s, "", false, tag).value;
            v != "" && rest == AfterNewLine(TailOf(s))
            && if TailOf(s) != "" && TrimTag(line) == line then v == s else v <= line && Fold(v) == Fold(tag)
  {
    hide Fold;
    FoldLength(TrimTag(LineOf(s)));
    FoldLength(tag);
  }

  lemma {:induction false} LaterLinesEnd(s: string, done: string, moved: bool, tag: string)
    requires done != ""
    ensures MultiLine(s, done, moved, tag).Some?
    decreases |s|
  {
    var line, tail := LineOf(s), TailOf(s);
    if Fold(if moved then line else TrimTag(line)) != Fold(tag) && tail != "" {
      LaterLinesEnd(AfterNewLine(tail), done + line + "\n", moved || NewLineLength(tail) == 2, tag);
    }
  }

  /** Reading a value ends the loading exactly when it is a bare `<<<` and no text or an empty line
      follows. */
  lemma StopsExactly(cfg: Config, section: string, key: string, v: string)
    ensures FindValue(cfg, section, key, v).NoMore?
       <==> cfg.multiLine && TrimEnd(LineOf(v)) == "<<<" && LineOf(AfterNewLine(TailOf(v))) == ""
  {
    var value, s := TrimEnd(LineOf(v)), AfterNewLine(TailOf(v));
    if cfg.multiLine && "<<<" <= value {
      var tag := value[3..];
      assert value == "<<<" + tag;
      if Fold(TrimTag(LineOf(s))) == Fold(tag) {
        NoLinesExact(s, tag);
      } else if TailOf(s) != "" {
        LaterLinesEnd(AfterNewLine(TailOf(s)), "" + LineOf(s) + "\n", NewLineLength(TailOf(s)) == 2, tag);
      }
    }
  }

  /** A key with such a value is lost, and everything behind it. */
  lemma BareTagStops(cfg: Config, doc: Doc, section: string, k: string, rest: string)
    requires cfg.multiLine && CleanKey(k)
    ensures Parse(cfg, doc, section, k + (EqualsSign(cfg) + ("<<<" + ("\n" + ("\n" + rest))))) == doc
  {
    hide FindValue, Find;
    var s := "\n" + rest;
    LineIs("", s);
    assert "" + s == s;
    NoLinesExact(s, "");
    KeyIsFound(cfg, Ended(section), k, "<<<" + ("\n" + s));
    ValueLine(cfg, section, k, "<<<", s);
  }

  /** A line that is not the end tag and ends in two characters. */
  lemma ReadsLineMoved(line: string, s: string, done: string, moved: bool, tag: string)
    requires OneLine(line) && Fold(if moved then line else TrimTag(line)) != Fold(tag)
    ensures MultiLine(line + ("\r\n" + s), done, moved, tag) == MultiLine(s, done + line + "\n", true, tag)
  {
    LineIs(line, "\r\n" + s);
    assert AfterNewLine("\r\n" + s) == s;
  }

  /** Spaces behind the end tag are ignored exactly when no line before it ended in two characters. */
  lemma TagSpacesExact(done: string, moved: bool, tag: string, pad: string, s: string)
    requires done != "" && IsTag(tag) && tag != "" && pad != "" && OneLine(pad) && forall j :: 0 <= j < |pad| ==> IsSpace(pad[j])
    ensures MultiLine(tag + pad + ("\n" + s), done, moved, tag)
         == if moved then MultiLine(s, done + (tag + pad) + "\n", true, tag) else Some((done[..|done| - 1], s))
  {
    hide Fold;
    var line := tag + pad;
    assert OneLine(line);
    LineIs(line, "\n" + s);
    AfterFeed(s);
    TrimTagUnique(line, |tag|);
    assert line[..|tag|] == tag;
    FoldLength(line);
    FoldLength(tag);
  }

  /** The input: a line ended in two characters, and the end tag with spaces behind it. The tag is read as a
      line of the value. */
  lemma MovedTagMissed(line: string, tag: string, pad: string, s: string)
    requires OneLine(line) && Fold(TrimTag(line)) != Fold(tag) && IsTag(tag) && tag != ""
    requires pad != "" && OneLine(pad) && forall j :: 0 <= j < |pad| ==> IsSpace(pad[j])
    ensures MultiLine(line + ("\r\n" + (tag + pad + ("\n" + s))), "", false, tag)
         == MultiLine(s, line + "\n" + (tag + pad) + "\n", true, tag)
  {
    hide MultiLine;
    ReadsLineMoved(line, tag + pad + ("\n" + s), "", false, tag);
    TagSpacesExact("" + line + "\n", true, tag, pad, s);
    assert "" + line + "\n" == line + "\n";
  }
}
