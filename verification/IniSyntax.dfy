/** What SimpleIni.h reads from INI text and what it prints, as functions on strings. A document
    lists sections and keys in load order. */
module IniSyntax {
  import opened Wrappers
  import opened IniText

  /** Whether values may span lines, and whether the equals sign is printed with spaces. */
  datatype Config = Config(multiLine: bool, spaces: bool)

  datatype Item = Item(key: string, value: string)
  datatype Part = Part(name: string, items: seq<Item>)
  type Doc = seq<Part>

  // ---- reading

  /** A key is found with its value and the name of the section it goes to. */
  datatype Found =
    | NoMore
    | SectionFound(name: string, rest: string)
    | ItemFound(section: string, item: Item, rest: string)

  /** The pointer to the section name. A header moves it before its closing bracket is looked for; when
      there is none, the pointer stays on text that has no end yet: `text` is what lies between it
      and the place reached. */
  datatype Pointer = Ended(name: string) | Open(text: string) {
    /** The place reached moves on over `t`. */
    function Past(t: string): Pointer {
      if Ended? then this else Open(text + t)
    }

    /** A NUL is written behind `t`. */
    function EndedBy(t: string): string {
      if Ended? then name else text + t
    }
  }

  /** A value between its opening line and the line that is the end tag: `done` is what was read of
      it, `moved` says that an earlier line ended in two characters, so that lines are being moved
      down and the end tag is looked for untrimmed. When the end tag is the first line, nothing ends
      the value: it is all the text from there on. */
  function MultiLine(s: string, done: string, moved: bool, tag: string): (r: Option<(string, string)>)
    ensures r.Some? ==> |r.value.1| < |s| || (s == "" && |r.value.0| <= |done|)
    decreases |s|
  {
    var line, tail := LineOf(s), TailOf(s);
    var candidate := if moved then line else TrimTag(line);
    if Fold(candidate) == Fold(tag) then
      if done != "" then Some((done[..|done| - 1], AfterNewLine(tail)))
      else if line == "" then None
      else Some((if candidate == line && tail != "" then s else candidate, AfterNewLine(tail)))
    else if tail == "" then Some((done + line, ""))
    else MultiLine(AfterNewLine(tail), done + line + "\n", moved || NewLineLength(tail) == 2, tag)
  }

  /** One line feed for each newline among the spaces at the start of the text. */
  function BlankLines(s: string): string
    decreases |s|
  {
    if s == "" || !IsSpace(s[0]) then ""
    else if IsNewLine(s[0]) then "\n" + BlankLines(AfterNewLine(s))
    else BlankLines(s[1..])
  }

  /** A comment with its lines and the blank lines between them moved together, and the text behind it:
      blank lines belong to it when another comment line follows. `done` is what was read of it. */
  function Comment(s: string, done: string): (r: (string, string))
    requires done != "" || (s != "" && IsComment(s[0]))
    ensures |r.1| <= |s| && (s != "" && IsComment(s[0]) ==> |r.1| < |s|)
    decreases |s|
  {
    if s != "" && IsComment(s[0]) then
      var line, tail := LineOf(s), TailOf(s);
      if tail == "" then (done + line, "") else Comment(AfterNewLine(tail), done + line + "\n")
    else
      var t := AfterSpaces(s);
      if t != "" && IsComment(t[0]) then Comment(t, done + BlankLines(s))
      else (done[..|done| - 1], s)
  }

  /** `FindEntry`: the next section header or key, passing over blank lines, comments and lines that
      are neither. A header without closing bracket is passed over too, but has moved the pointer. */
  function Find(cfg: Config, ptr: Pointer, s: string): (f: Found)
    ensures !f.NoMore? ==> |f.rest| < |s|
    decreases |s|, 1
  {
    FindAt(cfg, ptr.Past(s[..Spaces(s)]), AfterSpaces(s))
  }

  function FindAt(cfg: Config, ptr: Pointer, a: string): (f: Found)
    requires a != "" ==> !IsSpace(a[0])
    ensures !f.NoMore? ==> |f.rest| < |a|
    decreases |a|, 0
  {
    if a == "" then NoMore
    else if IsComment(a[0]) then
      var (text, rest) := Comment(a, "");
      Find(cfg, Ended(ptr.EndedBy(text)), rest)
    else if a[0] == '[' then FindName(cfg, AfterSpaces(a[1..]))
    else
      var end := UpTo(a, '=');
      if end == |a| || a[end] != '=' then Find(cfg, ptr.Past(a[..end]), a[end..])
      else if end == 0 then Find(cfg, ptr.Past(LineOf(a)), TailOf(a))
      else
        var key := TrimEnd(a[..end]);
        FindValue(cfg, ptr.EndedBy(key), key, AfterBlanks(a[end + 1..]))
  }

  /** The name after an opening bracket, if the line has a closing one. */
  function FindName(cfg: Config, b: string): (f: Found)
    ensures !f.NoMore? ==> |f.rest| <= |b|
    decreases |b|, 2
  {
    var end := UpTo(b, ']');
    if end == |b| || b[end] != ']' then Find(cfg, Open(b[..end]), b[end..])
    else SectionFound(TrimEnd(b[..end]), TailOf(b[end + 1..]))
  }

  /** The value at the start of `v`, which runs to the end of the line or is introduced by it. */
  function FindValue(cfg: Config, section: string, key: string, v: string): (f: Found)
    ensures !f.NoMore? ==> f.ItemFound? && f.section == section && f.item.key == key && |f.rest| <= |v|
  {
    var value, rest := TrimEnd(LineOf(v)), AfterNewLine(TailOf(v));
    if cfg.multiLine && "<<<" <= value then
      match MultiLine(rest, "", false, value[3..])
      case None => NoMore
      case Some((text, rest')) => ItemFound(section, Item(key, text), rest')
    else ItemFound(section, Item(key, value), rest)
  }

  // ---- storing

  /** The index of the name among the sections, upper and lower case alike. */
  function IndexOf(doc: Doc, name: string): (i: nat)
    ensures i <= |doc| && (i < |doc| ==> Fold(doc[i].name) == Fold(name))
    ensures forall j :: 0 <= j < i ==> Fold(doc[j].name) != Fold(name)
  {
    if doc == [] || Fold(doc[0].name) == Fold(name) then 0 else 1 + IndexOf(doc[1..], name)
  }

  function KeyIndex(items: seq<Item>, key: string): (i: nat)
    ensures i <= |items| && (i < |items| ==> Fold(items[i].key) == Fold(key))
    ensures forall j :: 0 <= j < i ==> Fold(items[j].key) != Fold(key)
  {
    if items == [] || Fold(items[0].key) == Fold(key) then 0 else 1 + KeyIndex(items[1..], key)
  }

  function AddSection(doc: Doc, name: string): (d: Doc)
    ensures IndexOf(d, name) < |d|
  {
    if IndexOf(doc, name) < |doc| then doc else
    assert (doc + [Part(name, [])])[|doc|].name == name;
    doc + [Part(name, [])]
  }

  /** A new key goes last, a known one keeps its place and its spelling. */
  function PutItem(items: seq<Item>, item: Item): seq<Item> {
    var i := KeyIndex(items, item.key);
    if i < |items| then items[i := Item(items[i].key, item.value)] else items + [item]
  }

  function AddItem(doc: Doc, section: string, item: Item): Doc {
    var d := AddSection(doc, section);
    var i := IndexOf(d, section);
    d[i := Part(d[i].name, PutItem(d[i].items, item))]
  }

  /** The loop of `LoadData`: `section` is the string at the section pointer. */
  function Parse(cfg: Config, doc: Doc, section: string, s: string): Doc
    decreases |s|
  {
    match Find(cfg, Ended(section), s)
    case NoMore => doc
    case SectionFound(name, rest) => Parse(cfg, AddSection(doc, name), name, rest)
    case ItemFound(name, item, rest) => Parse(cfg, AddItem(doc, name, item), name, rest)
  }

  const SIGNATURE := "\U{ef}\U{bb}\U{bf}"

  function Load(cfg: Config, doc: Doc, s: string): Doc {
    Parse(cfg, doc, "", if SIGNATURE <= s then s[3..] else s)
  }

  // ---- printing

  const END_OF_TEXT := "END_OF_TEXT"

  /** `IsMultiLineData`. */
  predicate NeedsMultiLine(v: string) {
    v != "" && (IsSpace(v[0]) || !OneLine(v) || IsSpace(v[|v| - 1]))
  }

  function PrintValue(cfg: Config, v: string, tag: string): string {
    if cfg.multiLine && NeedsMultiLine(v) then "<<<" + tag + "\n" + v + "\n" + tag else v
  }

  function EqualsSign(cfg: Config): string {
    if cfg.spaces then " = " else "="
  }

  function PrintItem(cfg: Config, item: Item): string {
    item.key + EqualsSign(cfg) + PrintValue(cfg, item.value, END_OF_TEXT) + "\n"
  }

  function PrintItems(cfg: Config, items: seq<Item>): string {
    if items == [] then "" else PrintItem(cfg, items[0]) + PrintItems(cfg, items[1..])
  }

  function PrintHeader(name: string): string {
    if name == "" then "" else "[" + name + "]\n"
  }

  /** The sections one after the other, separated by blank lines. */
  function PrintParts(cfg: Config, doc: Doc, needNewLine: bool): string {
    if doc == [] then ""
    else (if needNewLine then "\n\n" else "") + PrintHeader(doc[0].name) + PrintItems(cfg, doc[0].items)
         + PrintParts(cfg, doc[1..], true)
  }

  /** The section without a name goes first. */
  function EmptyFirst(doc: Doc): Doc {
    var i := IndexOf(doc, "");
    if i < |doc| then [doc[i]] + doc[..i] + doc[i + 1..] else doc
  }

  function Print(cfg: Config, doc: Doc): string {
    PrintParts(cfg, EmptyFirst(doc), false)
  }
}
