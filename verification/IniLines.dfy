/** INI text as it is written by hand: every kind of line, with blanks wherever they may stand and with
    any line ends, and what loading it stores. */
module IniLines {
  import opened Wrappers
  import opened IniText
  import opened IniSyntax
  import opened IniLaws
  import opened IniRoundTrip

  /** What stands on a line, or between the tags of a value of several lines. The strings between names,
      signs and brackets are blanks. */
  datatype Body =
    | Nothing
    | Remark(text: string)
    | Header(before: string, name: string, after: string, behind: string)
    | Entry(key: string, before: string, after: string, value: string, behind: string)
    | Lines(key: string, before: string, after: string, tag: string, behind: string, value: string)
    | Junk(text: string)

  datatype Line = Line(pad: string, body: Body, end: string)

  function WriteBody(body: Body): string {
    match body
    case Nothing => ""
    case Remark(text) => text
    case Header(before, name, after, behind) => "[" + (before + (name + (after + ("]" + behind))))
    case Entry(key, before, after, value, behind) => key + (before + ("=" + (after + (value + behind))))
    case Lines(key, before, after, tag, behind, value) =>
      key + (before + ("=" + (after + ("<<<" + (tag + (behind + ("\n" + (value + ("\n" + tag)))))))))
    case Junk(text) => text
  }

  function Write(lines: seq<Line>): string {
    if lines == [] then "" else lines[0].pad + (WriteBody(lines[0].body) + (lines[0].end + Write(lines[1..])))
  }

  predicate Pad(s: string) {
    forall c :: c in s ==> c == ' ' || c == '\t'
  }

  predicate GoodBody(cfg: Config, body: Body) {
    match body
    case Nothing => true
    case Remark(text) => text != "" && IsComment(text[0]) && OneLine(text)
    case Header(before, name, after, behind) =>
      Pad(before) && CleanSection(name) && Pad(after) && (name == "" ==> after == "") && OneLine(behind)
    case Entry(key, before, after, value, behind) =>
      CleanKey(key) && Pad(before) && Pad(after) && !NeedsMultiLine(value) && !(cfg.multiLine && "<<<" <= value) && Pad(behind)
    case Lines(key, before, after, tag, behind, value) =>
      cfg.multiLine && CleanKey(key) && Pad(before) && Pad(after) && IsTag(tag) && Pad(behind) && CleanLines(value, tag)
    case Junk(text) =>
      && text != "" && OneLine(text) && !IsSpace(text[0]) && !IsComment(text[0]) && text[0] != '['
      && (text[0] == '=' || '=' !in text)
  }

  /** Any newline ends a line, and the end of the text the last one. */
  predicate GoodEnd(line: Line, last: bool) {
    line.end == "\n" || (!line.body.Lines? && (line.end == "\r" || line.end == "\r\n" || (last && line.end == "")))
  }

  predicate GoodLines(cfg: Config, lines: seq<Line>) {
    forall i :: 0 <= i < |lines| ==>
      Pad(lines[i].pad) && GoodBody(cfg, lines[i].body) && GoodEnd(lines[i], i == |lines| - 1)
  }

  /** What the lines store, in the section reached so far. */
  function Stored(doc: Doc, section: string, lines: seq<Line>): Doc
    decreases |lines|
  {
    if lines == [] then doc else
    var body := lines[0].body;
    if body.Header? then Stored(AddSection(doc, body.name), body.name, lines[1..])
    else if body.Entry? || body.Lines? then Stored(AddItem(doc, section, Item(body.key, body.value)), section, lines[1..])
    else Stored(doc, section, lines[1..])
  }

  // ---- spaces and line ends

  lemma {:induction false} SpacesAhead(pad: string, s: string)
    requires forall j :: 0 <= j < |pad| ==> IsSpace(pad[j])
    ensures AfterSpaces(pad + s) == AfterSpaces(s)
  {
    if pad == "" {
      assert pad + s == s;
    } else {
      var t := pad + s;
      assert t[1..] == pad[1..] + s;
      SpacesAhead(pad[1..], s);
      assert Spaces(t) == 1 + Spaces(t[1..]);
      assert t[Spaces(t)..] == t[1..][Spaces(t[1..])..];
    }
  }

  /** With the pointer on a name that has its end, spaces mean nothing. */
  lemma PadIsSkipped(cfg: Config, section: string, pad: string, s: string)
    requires forall j :: 0 <= j < |pad| ==> IsSpace(pad[j])
    ensures Find(cfg, Ended(section), pad + s) == Find(cfg, Ended(section), s)
  {
    hide FindAt;
    SpacesAhead(pad, s);
  }

  lemma ParseSame(cfg: Config, doc: Doc, section: string, s: string, t: string)
    requires Find(cfg, Ended(section), s) == Find(cfg, Ended(section), t)
    ensures Parse(cfg, doc, section, s) == Parse(cfg, doc, section, t)
  {
    hide Find;
  }

  lemma EndIsNewLine(end: string, rest: string)
    requires end in {"\n", "\r", "\r\n"} || end + rest == ""
    ensures end + rest != "" ==> IsNewLine((end + rest)[0])
    ensures forall j :: 0 <= j < |end| ==> IsSpace(end[j])
    ensures AfterNewLine(end + rest) == rest || (rest != "" && rest[0] == '\n' && AfterNewLine(end + rest) == rest[1..])
  {}

  /** Taking a carriage return and the line feed of an empty line behind it together changes nothing. */
  lemma NextLine(cfg: Config, doc: Doc, section: string, end: string, rest: string)
    requires end in {"\n", "\r", "\r\n"} || end + rest == ""
    ensures end + rest != "" ==> IsNewLine((end + rest)[0])
    ensures Parse(cfg, doc, section, AfterNewLine(end + rest)) == Parse(cfg, doc, section, rest)
    ensures Parse(cfg, doc, section, end + rest) == Parse(cfg, doc, section, rest)
  {
    hide Parse;
    EndIsNewLine(end, rest);
    PadIsSkipped(cfg, section, end, rest);
    ParseSame(cfg, doc, section, end + rest, rest);
    if AfterNewLine(end + rest) != rest {
      assert rest == "\n" + rest[1..];
      PadIsSkipped(cfg, section, "\n", rest[1..]);
      ParseSame(cfg, doc, section, rest, rest[1..]);
    }
  }

  lemma PadIsBlank(pad: string)
    requires Pad(pad)
    ensures forall j :: 0 <= j < |pad| ==> IsSpace(pad[j]) && !IsNewLine(pad[j])
    ensures OneLine(pad) && '=' !in pad && ']' !in pad
  {
    assert forall j :: 0 <= j < |pad| ==> pad[j] in pad;
  }

  lemma OneLineJoined(a: string, b: string)
    requires OneLine(a) && OneLine(b)
    ensures OneLine(a + b)
  {}

  // ---- comments

  /** The text of a comment does not decide where it ends. */
  lemma {:induction false} RestAlone(s: string, a: string, b: string)
    requires (s != "" && IsComment(s[0])) || (a != "" && b != "")
    ensures Comment(s, a).1 == Comment(s, b).1
    decreases |s|
  {
    if s != "" && IsComment(s[0]) {
      var line, tail := LineOf(s), TailOf(s);
      if tail != "" { RestAlone(AfterNewLine(tail), a + line + "\n", b + line + "\n"); }
    } else {
      var t := AfterSpaces(s);
      if t != "" && IsComment(t[0]) { RestAlone(t, a + BlankLines(s), b + BlankLines(s)); }
    }
  }

  /** Further comment lines, and blank lines between them, are found nothing in. */
  lemma RestIsFound(cfg: Config, section: string, s: string, done: string)
    requires done != ""
    ensures Find(cfg, Ended(section), Comment(s, done).1) == Find(cfg, Ended(section), s)
  {
    var t := AfterSpaces(s);
    if t != "" && IsComment(t[0]) {
      assert s != "" && IsComment(s[0]) ==> t == s;
      RestAlone(t, done, "");
      if t != s { RestAlone(t, done + BlankLines(s), ""); }
      assert Find(cfg, Ended(section), s) == FindAt(cfg, Ended(section), t);
    }
  }

  /** A comment line is passed over, and the next entry found. */
  lemma CommentIsSkipped(cfg: Config, section: string, text: string, tail: string)
    requires text != "" && IsComment(text[0]) && OneLine(text) && (tail != "" ==> IsNewLine(tail[0]))
    ensures Find(cfg, Ended(section), text + tail) == Find(cfg, Ended(section), AfterNewLine(tail))
  {
    var s := text + tail;
    LineIs(text, tail);
    assert s[0] == text[0] && AfterSpaces(s) == s;
    assert Find(cfg, Ended(section), s) == Find(cfg, Ended(section), Comment(s, "").1);
    if tail != "" { RestIsFound(cfg, section, AfterNewLine(tail), "" + text + "\n"); }
  }

  // ---- the other lines

  lemma JunkIsSkipped(cfg: Config, section: string, text: string, tail: string)
    requires GoodBody(cfg, Junk(text)) && (tail != "" ==> IsNewLine(tail[0]))
    ensures Find(cfg, Ended(section), text + tail) == Find(cfg, Ended(section), tail)
  {
    var a := text + tail;
    assert a[0] == text[0] && AfterSpaces(a) == a;
    LineIs(text, tail);
    if text[0] == '=' {
      assert UpTo(a, '=') == 0;
    } else {
      forall j | 0 <= j < |text| ensures a[j] != '=' && !IsNewLine(a[j]) { assert text[j] in text; }
      UpToUnique(a, '=', |text|);
      assert a[|text|..] == tail;
    }
  }

  lemma {:induction false} BlanksAhead(pad: string, s: string)
    requires Pad(pad)
    ensures AfterBlanks(pad + s) == AfterBlanks(s)
  {
    if pad == "" {
      assert pad + s == s;
    } else {
      var t := pad + s;
      assert t[0] == pad[0] && pad[0] in pad && t[1..] == pad[1..] + s;
      assert forall c :: c in pad[1..] ==> c in pad;
      BlanksAhead(pad[1..], s);
      assert Blanks(t) == 1 + Blanks(t[1..]);
      assert t[Blanks(t)..] == t[1..][Blanks(t[1..])..];
    }
  }

  lemma OpensHeader(cfg: Config, section: string, before: string, b: string)
    requires Pad(before) && b != "" && !IsSpace(b[0])
    ensures Find(cfg, Ended(section), "[" + (before + b)) == FindName(cfg, b)
  {
    hide FindName, AfterSpaces, Find, Pad;
    PadIsBlank(before);
    SpacesAhead(before, b);
    NoSpacesPast(Ended(section), b);
    AtBracket(cfg, section, before + b);
  }

  lemma AtBracket(cfg: Config, section: string, t: string)
    ensures Find(cfg, Ended(section), "[" + t) == FindName(cfg, AfterSpaces(t))
  {
    hide FindName, AfterSpaces;
    var s := "[" + t;
    NoSpacesPast(Ended(section), s);
    assert s[1..] == t;
  }

  /** A header with blanks around its name and anything behind its bracket. */
  lemma HeaderIsFound(cfg: Config, section: string, h: Body, tail: string)
    requires h.Header? && GoodBody(cfg, h) && (tail != "" ==> IsNewLine(tail[0]))
    ensures Find(cfg, Ended(section), WriteBody(h) + tail) == SectionFound(h.name, tail)
  {
    hide Find, FindName, Pad, OneLine;
    var b := h.name + (h.after + ("]" + h.behind + tail));
    HeaderText(h, tail);
    assert b[0] == if h.name == "" then ']' else h.name[0];
    OpensHeader(cfg, section, h.before, b);
    NameIsFound(cfg, h.name, h.after, h.behind, tail);
  }

  lemma HeaderText(h: Body, tail: string)
    requires h.Header?
    ensures WriteBody(h) + tail == "[" + (h.before + (h.name + (h.after + ("]" + h.behind + tail))))
  {}

  lemma NameIsFound(cfg: Config, name: string, after: string, behind: string, tail: string)
    requires CleanSection(name) && Pad(after) && OneLine(behind) && (tail != "" ==> IsNewLine(tail[0]))
    ensures FindName(cfg, name + (after + ("]" + behind + tail))) == SectionFound(name, tail)
  {
    hide Find, TrimEnd, UpTo, OneLine, Pad, TailOf;
    var named, closing := name + after, "]" + behind + tail;
    NameEnds(name, after);
    assert name + (after + closing) == named + closing;
    UpToIs(named, ']', closing);
    TrimEndIs(name, after);
    TailBehind(named, behind, tail);
    LineIs(behind, tail);
  }

  lemma NameEnds(name: string, after: string)
    requires CleanSection(name) && Pad(after)
    ensures OneLine(name + after) && ']' !in name + after && (name != "" ==> !IsSpace(name[|name| - 1]))
    ensures forall j :: 0 <= j < |after| ==> IsSpace(after[j])
  {
    PadIsBlank(after);
    OneLineJoined(name, after);
  }

  lemma TailBehind(named: string, behind: string, tail: string)
    ensures (named + ("]" + behind + tail))[|named| + 1..] == behind + tail
  {}

  lemma KeyIsReached(cfg: Config, section: string, key: string, before: string, after: string, v: string)
    requires CleanKey(key) && Pad(before) && Pad(after)
    ensures Find(cfg, Ended(section), key + (before + ("=" + (after + v)))) == FindValue(cfg, section, key, AfterBlanks(v))
  {
    hide Find, FindValue, AfterBlanks;
    PadIsBlank(before);
    assert key + (before + ("=" + (after + v))) == key + before + ("=" + (after + v));
    KeyIsFoundBefore(cfg, Ended(section), key, before, after + v);
    BlanksAhead(after, v);
  }

  /** A value on the line of its key, with blanks around both. */
  lemma EntryIsFound(cfg: Config, section: string, e: Body, tail: string)
    requires e.Entry? && GoodBody(cfg, e) && (tail != "" ==> IsNewLine(tail[0]))
    ensures Find(cfg, Ended(section), WriteBody(e) + tail) == ItemFound(section, Item(e.key, e.value), AfterNewLine(tail))
  {
    hide Find, AfterNewLine, TrimEnd, LineOf, TailOf, AfterBlanks, Pad, CleanKey;
    var v := e.value + (e.behind + tail);
    EntryText(e, tail);
    KeyIsReached(cfg, section, e.key, e.before, e.after, v);
    ValueEnds(e.value, e.behind, tail);
    if e.value == "" {
      assert !("<<<" <= e.value);
    }
  }

  lemma EntryText(e: Body, tail: string)
    requires e.Entry?
    ensures WriteBody(e) + tail == e.key + (e.before + ("=" + (e.after + (e.value + (e.behind + tail)))))
  {}

  /** The line of a value from its first character on, and what is behind it. */
  lemma ValueEnds(value: string, behind: string, tail: string)
    requires !NeedsMultiLine(value) && Pad(behind) && (tail != "" ==> IsNewLine(tail[0]))
    ensures var v := AfterBlanks(value + (behind + tail)); TrimEnd(LineOf(v)) == value && TailOf(v) == tail
  {
    hide TrimEnd, LineOf, TailOf, Pad, AfterBlanks;
    if value == "" {
      assert "" + (behind + tail) == behind + tail && "" + tail == tail;
      BlanksAhead(behind, tail);
      NoBlanks(tail);
      LineIs("", tail);
      TrimEndIs("", "");
    } else {
      LineOfValue(value, behind, tail);
      NoBlanks(value + (behind + tail));
    }
  }

  lemma NoBlanks(t: string)
    requires t != "" ==> !IsSpace(t[0]) || IsNewLine(t[0])
    ensures AfterBlanks(t) == t
  {}

  lemma LineOfValue(value: string, behind: string, tail: string)
    requires OneLine(value) && (value != "" ==> !IsSpace(value[|value| - 1])) && Pad(behind) && (tail != "" ==> IsNewLine(tail[0]))
    ensures var v := value + (behind + tail); TrimEnd(LineOf(v)) == value && TailOf(v) == tail
  {
    PadIsBlank(behind);
    OneLineJoined(value, behind);
    assert value + (behind + tail) == value + behind + tail;
    LineIs(value + behind, tail);
    TrimEndIs(value, behind);
  }

  lemma LinesText(l: Body, rest: string)
    requires l.Lines?
    ensures var v := "<<<" + l.tag + (l.behind + ("\n" + (l.value + Closing(l.tag, rest))));
            WriteBody(l) + ("\n" + rest) == l.key + (l.before + ("=" + (l.after + v)))
  {}

  lemma OpeningIs(tag: string)
    requires IsTag(tag)
    ensures var opening := "<<<" + tag;
            && "<<<" <= opening && opening[3..] == tag && opening[0] == '<'
            && OneLine(opening) && !IsSpace(opening[|opening| - 1])
  {
    OneLineJoined("<<<", tag);
    assert ("<<<" + tag)[|tag| + 2] == if tag == "" then '<' else tag[|tag| - 1];
  }

  /** A value between its tags. */
  lemma LinesAreFound(cfg: Config, section: string, l: Body, rest: string)
    requires l.Lines? && GoodBody(cfg, l)
    ensures Find(cfg, Ended(section), WriteBody(l) + ("\n" + rest)) == ItemFound(section, Item(l.key, l.value), rest)
  {
    hide Find, MultiLine, TrimEnd, CleanLines, CleanKey, IsTag, Pad, OneLine, Closing, WriteBody, LineOf, TailOf, AfterNewLine;
    var opening, lines := "<<<" + l.tag, l.value + Closing(l.tag, rest);
    var v := opening + (l.behind + ("\n" + lines));
    LinesText(l, rest);
    KeyIsReached(cfg, section, l.key, l.before, l.after, v);
    OpeningIs(l.tag);
    assert v[0] == '<' && AfterBlanks(v) == v;
    LineOfValue(opening, l.behind, "\n" + lines);
    AfterFeed(lines);
    ReadsLines(l.value, "", l.tag, rest);
    assert "" + l.value == l.value;
  }

  // ---- texts

  lemma LineIsParsed(cfg: Config, doc: Doc, section: string, body: Body, end: string, rest: string)
    requires GoodBody(cfg, body) && GoodEnd(Line("", body, end), rest == "")
    ensures Parse(cfg, doc, section, WriteBody(body) + (end + rest)) ==
            if body.Header? then Parse(cfg, AddSection(doc, body.name), body.name, rest)
            else if body.Entry? || body.Lines? then Parse(cfg, AddItem(doc, section, Item(body.key, body.value)), section, rest)
            else Parse(cfg, doc, section, rest)
  {
    hide Find, GoodBody, WriteBody, AddItem, AddSection, AfterNewLine;
    var tail := end + rest;
    NextLine(cfg, doc, section, end, rest);
    if body.Nothing? {
      NothingWritten(body, tail);
    } else if body.Remark? {
      BodyIsText(cfg, body);
      CommentIsSkipped(cfg, section, body.text, tail);
      ParseSame(cfg, doc, section, body.text + tail, AfterNewLine(tail));
    } else if body.Header? {
      HeaderIsFound(cfg, section, body, tail);
      NextLine(cfg, AddSection(doc, body.name), body.name, end, rest);
    } else if body.Entry? {
      EntryIsFound(cfg, section, body, tail);
      NextLine(cfg, AddItem(doc, section, Item(body.key, body.value)), section, end, rest);
    } else if body.Lines? {
      LinesAreFound(cfg, section, body, rest);
    } else {
      BodyIsText(cfg, body);
      JunkIsSkipped(cfg, section, body.text, tail);
      ParseSame(cfg, doc, section, body.text + tail, tail);
    }
  }

  lemma NothingWritten(body: Body, tail: string)
    requires body.Nothing?
    ensures WriteBody(body) + tail == tail
  {}

  lemma BodyIsText(cfg: Config, body: Body)
    requires (body.Remark? || body.Junk?) && GoodBody(cfg, body)
    ensures WriteBody(body) == body.text && GoodBody(cfg, body)
    ensures body.Remark? ==> body.text != "" && IsComment(body.text[0]) && OneLine(body.text)
  {}

  lemma {:induction false} LinesAreParsed(cfg: Config, doc: Doc, section: string, lines: seq<Line>)
    requires GoodLines(cfg, lines)
    ensures Parse(cfg, doc, section, Write(lines)) == Stored(doc, section, lines)
    decreases |lines|
  {
    hide Parse, GoodBody, WriteBody, AddItem, AddSection;
    if lines == [] {
      ParseNothing(cfg, doc, section);
    } else {
      var line, rest := lines[0], Write(lines[1..]);
      PadIsBlank(line.pad);
      PadIsSkipped(cfg, section, line.pad, WriteBody(line.body) + (line.end + rest));
      ParseSame(cfg, doc, section, Write(lines), WriteBody(line.body) + (line.end + rest));
      LineIsParsed(cfg, doc, section, line.body, line.end, rest);
      var body := line.body;
      if body.Header? {
        LinesAreParsed(cfg, AddSection(doc, body.name), body.name, lines[1..]);
      } else if body.Entry? || body.Lines? {
        LinesAreParsed(cfg, AddItem(doc, section, Item(body.key, body.value)), section, lines[1..]);
      } else {
        LinesAreParsed(cfg, doc, section, lines[1..]);
      }
    }
  }

  /** Loading any such text, with a signature or without, stores just what its headers and entries say. */
  lemma TextIsLoaded(cfg: Config, doc: Doc, lines: seq<Line>)
    requires GoodLines(cfg, lines)
    ensures Load(cfg, doc, SIGNATURE + Write(lines)) == Stored(doc, "", lines)
    ensures !(SIGNATURE <= Write(lines)) ==> Load(cfg, doc, Write(lines)) == Stored(doc, "", lines)
  {
    hide Parse, Stored, GoodLines;
    assert (SIGNATURE + Write(lines))[3..] == Write(lines);
    LinesAreParsed(cfg, doc, "", lines);
  }

  // ---- saved texts

  function Plain(body: Body): Line {
    Line("", body, "\n")
  }

  function SavedItem(cfg: Config, item: Item): Line {
    var blank := if cfg.spaces then " " else "";
    Plain(if cfg.multiLine && NeedsMultiLine(item.value) then Lines(item.key, blank, blank, "END_OF_TEXT", "", item.value)
          else Entry(item.key, blank, blank, item.value, ""))
  }

  function SavedItems(cfg: Config, items: seq<Item>): seq<Line> {
    seq(|items|, i requires 0 <= i < |items| => SavedItem(cfg, items[i]))
  }

  /** A section's header, none for the one without a name, and its entries. */
  function SavedPart(cfg: Config, part: Part): seq<Line> {
    (if part.name == "" then [] else [Plain(Header("", part.name, "", ""))]) + SavedItems(cfg, part.items)
  }

  /** Two empty lines in front of every section but the first. */
  function SavedParts(cfg: Config, doc: Doc): seq<Line> {
    if doc == [] then []
    else if |doc| == 1 then SavedPart(cfg, doc[0])
    else SavedPart(cfg, doc[0]) + [Plain(Nothing), Plain(Nothing)] + SavedParts(cfg, doc[1..])
  }

  lemma WriteFirst(line: Line, more: seq<Line>)
    ensures Write([line] + more) == line.pad + (WriteBody(line.body) + (line.end + Write(more)))
  {
    hide WriteBody;
    assert ([line] + more)[1..] == more;
  }

  lemma {:induction false} WriteJoined(a: seq<Line>, b: seq<Line>)
    ensures Write(a + b) == Write(a) + Write(b)
  {
    hide WriteBody, Write;
    if a == [] {
      assert a + b == b;
      NothingSaved();
      assert "" + Write(b) == Write(b);
    } else {
      var line, more := a[0], a[1..];
      WriteJoined(more, b);
      assert a == [line] + more && a + b == [line] + (more + b);
      WriteFirst(line, more);
      WriteFirst(line, more + b);
      LongJoined(line.pad, WriteBody(line.body), line.end, Write(more), Write(b));
    }
  }

  lemma LongJoined(a: string, b: string, c: string, d: string, e: string)
    ensures a + (b + (c + d)) + e == a + (b + (c + (d + e)))
  {}

  lemma WriteOne(body: Body)
    ensures Write([Plain(body)]) == WriteBody(body) + "\n"
  {
    hide WriteBody;
    var lines := [Plain(body)];
    assert Write(lines[1..]) == "";
    assert "" + (WriteBody(body) + ("\n" + "")) == WriteBody(body) + "\n";
  }

  lemma SignWritten(cfg: Config, blank: string, v: string)
    requires blank == if cfg.spaces then " " else ""
    ensures blank + ("=" + (blank + v)) == EqualsSign(cfg) + v
  {}

  lemma OneLineWritten(cfg: Config, item: Item)
    ensures Write([SavedItem(cfg, item)]) == PrintItem(cfg, item)
  {
    hide NeedsMultiLine, EqualsSign, Write;
    var blank, v := if cfg.spaces then " " else "", PrintValue(cfg, item.value, END_OF_TEXT);
    WriteOne(SavedItem(cfg, item).body);
    SignWritten(cfg, blank, v);
    if cfg.multiLine && NeedsMultiLine(item.value) {
      TaggedText(item.value, END_OF_TEXT);
    } else {
      assert item.value + "" == item.value;
    }
    Regrouped(item.key, EqualsSign(cfg), v);
  }

  lemma TaggedText(v: string, tag: string)
    ensures "<<<" + (tag + ("" + ("\n" + (v + ("\n" + tag))))) == "<<<" + tag + "\n" + v + "\n" + tag
  {}

  lemma Regrouped(a: string, b: string, c: string)
    ensures a + (b + c) == a + b + c
  {}

  lemma {:induction false} ItemsWritten(cfg: Config, items: seq<Item>)
    ensures Write(SavedItems(cfg, items)) == PrintItems(cfg, items)
  {
    hide PrintItem, SavedItem;
    if items != [] {
      OneLineWritten(cfg, items[0]);
      ItemsWritten(cfg, items[1..]);
      assert SavedItems(cfg, items) == [SavedItem(cfg, items[0])] + SavedItems(cfg, items[1..]);
      WriteJoined([SavedItem(cfg, items[0])], SavedItems(cfg, items[1..]));
    }
  }

  lemma HeaderWritten(name: string)
    ensures Write([Plain(Header("", name, "", ""))]) == "[" + name + "]\n"
  {
    WriteOne(Header("", name, "", ""));
    assert "[" + ("" + (name + ("" + ("]" + "")))) + "\n" == "[" + name + "]\n";
  }

  lemma PartWritten(cfg: Config, part: Part)
    ensures Write(SavedPart(cfg, part)) == PrintHeader(part.name) + PrintItems(cfg, part.items)
  {
    hide SavedItems, Write;
    ItemsWritten(cfg, part.items);
    if part.name == "" {
      assert [] + SavedItems(cfg, part.items) == SavedItems(cfg, part.items);
    } else {
      HeaderWritten(part.name);
      WriteJoined([Plain(Header("", part.name, "", ""))], SavedItems(cfg, part.items));
    }
  }

  lemma GapWritten()
    ensures Write([Plain(Nothing), Plain(Nothing)]) == "\n\n"
  {
    var lines := [Plain(Nothing), Plain(Nothing)];
    assert lines[1..] == [Plain(Nothing)] && Write(lines[1..][1..]) == "";
  }

  lemma {:induction false} PartsWritten(cfg: Config, doc: Doc)
    ensures Write(SavedParts(cfg, doc)) == PrintParts(cfg, doc, false)
  {
    hide SavedPart, PrintHeader, PrintItems, Write;
    if doc == [] {
      NothingSaved();
    } else {
      var first, rest := PrintHeader(doc[0].name) + PrintItems(cfg, doc[0].items), doc[1..];
      PartWritten(cfg, doc[0]);
      NoGap(cfg, doc);
      hide PrintParts;
      if rest == [] {
        NoParts(cfg);
        assert first + "" == first;
      } else {
        PartsWritten(cfg, rest);
        PrintStartsLater(cfg, rest);
        GapWritten();
        PartsJoined(SavedPart(cfg, doc[0]), [Plain(Nothing), Plain(Nothing)], SavedParts(cfg, rest));
        assert SavedParts(cfg, doc) == SavedPart(cfg, doc[0]) + [Plain(Nothing), Plain(Nothing)] + SavedParts(cfg, rest);
      }
    }
  }

  lemma NothingSaved()
    ensures Write([]) == ""
  {}

  lemma PartsJoined(a: seq<Line>, gap: seq<Line>, b: seq<Line>)
    ensures Write(a + gap + b) == Write(a) + (Write(gap) + Write(b))
  {
    hide Write;
    WriteJoined(a + gap, b);
    WriteJoined(a, gap);
    assert Write(a) + Write(gap) + Write(b) == Write(a) + (Write(gap) + Write(b));
  }

  lemma NoGap(cfg: Config, doc: Doc)
    requires doc != []
    ensures PrintParts(cfg, doc, false) == PrintHeader(doc[0].name) + PrintItems(cfg, doc[0].items) + PrintParts(cfg, doc[1..], true)
  {
    hide PrintHeader, PrintItems;
    var a, b := PrintHeader(doc[0].name), PrintItems(cfg, doc[0].items);
    assert "" + a + b == a + b;
  }

  /** What is saved, line by line. */
  lemma SavedLines(cfg: Config, doc: Doc)
    ensures Print(cfg, doc) == Write(SavedParts(cfg, EmptyFirst(doc)))
  {
    PartsWritten(cfg, EmptyFirst(doc));
  }

  /** A saved text, character by character. */
  lemma SavedExample()
    ensures Print(Config(true, true), [Part("s", [Item("a", "1"), Item("b", "x\ny")]), Part("", [Item("c", "")])])
         == ("c" + " = " + "" + "\n") + "\n\n" + ("[" + "s" + "]\n")
            + (("a" + " = " + "1" + "\n")
               + ("b" + " = " + ("<<<" + "END_OF_TEXT" + "\n" + "x\ny" + "\n" + "END_OF_TEXT") + "\n"))
  {
    var cfg, s, u := Config(true, true), Part("s", [Item("a", "1"), Item("b", "x\ny")]), Part("", [Item("c", "")]);
    assert EmptyFirst([s, u]) == [u, s];
    ExampleItems(cfg);
    TwoItems(cfg, s.items);
    assert PrintItems(cfg, u.items) == PrintItem(cfg, u.items[0]) by { assert u.items[1..] == []; }
    hide PrintItems, PrintItem;
    TwoParts(cfg, u, s);
  }

  lemma ExampleItems(cfg: Config)
    requires cfg == Config(true, true)
    ensures PrintItem(cfg, Item("a", "1")) == "a" + " = " + "1" + "\n"
    ensures PrintItem(cfg, Item("c", "")) == "c" + " = " + "" + "\n"
    ensures PrintItem(cfg, Item("b", "x\ny"))
         == "b" + " = " + ("<<<" + "END_OF_TEXT" + "\n" + "x\ny" + "\n" + "END_OF_TEXT") + "\n"
  {
    ExampleValues();
    hide NeedsMultiLine;
  }

  lemma ExampleValues()
    ensures !NeedsMultiLine("1") && !NeedsMultiLine("") && NeedsMultiLine("x\ny")
  {
    assert !IsSpace("1"[0]) && OneLine("1");
    var v := "x\ny";
    assert v[1] in v && IsNewLine(v[1]);
  }

  lemma TwoItems(cfg: Config, items: seq<Item>)
    requires |items| == 2
    ensures PrintItems(cfg, items) == PrintItem(cfg, items[0]) + PrintItem(cfg, items[1])
  {
    hide PrintItem;
    var rest := items[1..];
    assert PrintItems(cfg, rest) == PrintItem(cfg, items[1]) + PrintItems(cfg, rest[1..]);
    assert rest[1..] == [] && PrintItem(cfg, items[1]) + "" == PrintItem(cfg, items[1]);
  }

  lemma TwoParts(cfg: Config, a: Part, b: Part)
    requires a.name == "" && b.name != ""
    ensures PrintParts(cfg, [a, b], false)
         == PrintItems(cfg, a.items) + "\n\n" + ("[" + b.name + "]\n") + PrintItems(cfg, b.items)
  {
    hide PrintItems, PrintParts;
    NoGap(cfg, [a, b]);
    NoGap(cfg, [b]);
    assert [a, b][1..] == [b] && [b][1..] == [];
    PrintStartsLater(cfg, [b]);
    NoParts(cfg);
    var first, header, rest := PrintItems(cfg, a.items), "[" + b.name + "]\n", PrintItems(cfg, b.items);
    assert header + rest + "" == header + rest;
    assert "" + first == first;
    assert first + ("\n\n" + (header + rest)) == first + "\n\n" + header + rest;
  }

  lemma NoParts(cfg: Config)
    ensures PrintParts(cfg, [], true) == ""
  {}

  /** A loaded text, character by character: signature, comment, blanks, and a key in another case. */
  lemma LoadedExample(cfg: Config)
    ensures Load(cfg, [], "\U{ef}\U{bb}\U{bf}" + "; x\r\n" + "[ S ]\n" + "a = 1\n" + "A=2") == [Part("S", [Item("a", "2")])]
  {
    var a, b := Line("", Remark("; x"), "\r\n"), Line("", Header(" ", "S", " ", ""), "\n");
    var c, d := Line("", Entry("a", " ", " ", "1", ""), "\n"), Line("", Entry("A", "", "", "2", ""), "");
    var lines := [a, b, c, d];
    hide Load, Write, Stored, GoodLines;
    ExampleLines(cfg, a, b, c, d);
    ExampleText(a, b, c, d);
    TextIsLoaded(cfg, [], lines);
    ExampleStored(a, b, c, d);
    Joined4("\U{ef}\U{bb}\U{bf}", "; x\r\n", "[ S ]\n", "a = 1\n", "A=2");
  }

  lemma Joined4(a: string, b: string, c: string, d: string, e: string)
    ensures a + b + c + d + e == a + (b + c + d + e)
  {}

  ghost predicate Example(a: Line, b: Line, c: Line, d: Line) {
    && a == Line("", Remark("; x"), "\r\n") && b == Line("", Header(" ", "S", " ", ""), "\n")
    && c == Line("", Entry("a", " ", " ", "1", ""), "\n") && d == Line("", Entry("A", "", "", "2", ""), "")
  }

  lemma ExampleLines(cfg: Config, a: Line, b: Line, c: Line, d: Line)
    requires Example(a, b, c, d)
    ensures GoodLines(cfg, [a, b, c, d])
  {
    assert "; x"[0] == ';' && "S"[0] == 'S' && "a"[0] == 'a' && "A"[0] == 'A' && "1"[0] == '1' && "2"[0] == '2';
    assert !NeedsMultiLine("1") && !NeedsMultiLine("2");
    assert !("<<<" <= "1") && !("<<<" <= "2");
    assert GoodBody(cfg, a.body) && GoodBody(cfg, b.body) && GoodBody(cfg, c.body) && GoodBody(cfg, d.body);
    hide GoodBody;
  }

  lemma ExampleText(a: Line, b: Line, c: Line, d: Line)
    requires Example(a, b, c, d)
    ensures Write([a, b, c, d]) == "; x\r\n" + "[ S ]\n" + "a = 1\n" + "A=2"
  {
    assert [a, b, c, d] == [a] + ([b] + ([c] + [d]));
    WriteJoined([a], [b] + ([c] + [d]));
    WriteJoined([b], [c] + [d]);
    WriteJoined([c], [d]);
    WriteSingle(a);
    WriteSingle(b);
    WriteSingle(c);
    WriteSingle(d);
    hide Write;
    assert Write([a]) == "; x\r\n" && Write([b]) == "[ S ]\n" && Write([c]) == "a = 1\n" && Write([d]) == "A=2";
    Regrouped4(Write([a]), Write([b]), Write([c]), Write([d]));
  }

  lemma Regrouped4(a: string, b: string, c: string, d: string)
    ensures a + (b + (c + d)) == a + b + c + d
  {}

  lemma WriteSingle(line: Line)
    ensures Write([line]) == line.pad + (WriteBody(line.body) + line.end)
  {
    hide WriteBody;
    var lines := [line];
    assert lines[1..] == [] && line.end + "" == line.end;
  }

  lemma ExampleStored(a: Line, b: Line, c: Line, d: Line)
    requires Example(a, b, c, d)
    ensures Stored([], "", [a, b, c, d]) == [Part("S", [Item("a", "2")])]
  {
    var s, s1, s2 := [Part("S", [])], [Part("S", [Item("a", "1")])], [Part("S", [Item("a", "2")])];
    assert AddSection([], "S") == s;
    assert PutItem([], Item("a", "1")) == [Item("a", "1")];
    assert IndexOf(s, "S") == 0 && AddItem(s, "S", Item("a", "1")) == s1;
    assert Fold("A") == Fold("a") by { FoldsAreVariants("A", "a"); }
    assert KeyIndex([Item("a", "1")], "A") == 0;
    assert PutItem([Item("a", "1")], Item("A", "2")) == [Item("a", "2")];
    assert IndexOf(s1, "S") == 0 && AddItem(s1, "S", Item("A", "2")) == s2;
    hide AddItem, AddSection;
    StoredSteps(a, b, c, d);
  }

  lemma StoredHeader(doc: Doc, section: string, line: Line, more: seq<Line>)
    requires line.body.Header?
    ensures Stored(doc, section, [line] + more) == Stored(AddSection(doc, line.body.name), line.body.name, more)
  {
    hide AddSection, AddItem;
    assert ([line] + more)[1..] == more;
  }

  lemma StoredEntry(doc: Doc, section: string, line: Line, more: seq<Line>)
    requires line.body.Entry?
    ensures Stored(doc, section, [line] + more) == Stored(AddItem(doc, section, Item(line.body.key, line.body.value)), section, more)
  {
    hide AddSection, AddItem;
    assert ([line] + more)[1..] == more;
  }

  lemma StoredRemark(doc: Doc, section: string, line: Line, more: seq<Line>)
    requires line.body.Remark?
    ensures Stored(doc, section, [line] + more) == Stored(doc, section, more)
  {
    hide AddSection, AddItem;
    assert ([line] + more)[1..] == more;
  }

  lemma StoredSteps(a: Line, b: Line, c: Line, d: Line)
    requires Example(a, b, c, d)
    ensures Stored([], "", [a, b, c, d])
         == AddItem(AddItem(AddSection([], "S"), "S", Item("a", "1")), "S", Item("A", "2"))
  {
    hide AddItem, AddSection, Stored;
    var e := AddSection([], "S");
    var f := AddItem(e, "S", Item("a", "1"));
    assert [a, b, c, d] == [a] + [b, c, d] && [b, c, d] == [b] + [c, d] && [c, d] == [c] + [d] && [d] == [d] + [];
    StoredRemark([], "", a, [b, c, d]);
    StoredHeader([], "", b, [c, d]);
    StoredEntry(e, "S", c, [d]);
    StoredEntry(f, "S", d, []);
    StoredNothing(AddItem(f, "S", Item("A", "2")), "S");
  }

  lemma StoredNothing(doc: Doc, section: string)
    ensures Stored(doc, section, []) == doc
  {}
}
