/** Whole documents: loading what was saved rebuilds the document. */
module IniRoundTrip {
  import opened Wrappers
  import opened IniText
  import opened IniSyntax
  import opened IniLaws

  predicate DistinctKeys(items: seq<Item>) {
    forall i, j :: 0 <= i < j < |items| ==> Fold(items[i].key) != Fold(items[j].key)
  }

  predicate DistinctNames(doc: Doc) {
    forall i, j :: 0 <= i < j < |doc| ==> Fold(doc[i].name) != Fold(doc[j].name)
  }

  /** No name twice, upper and lower case alike. */
  predicate Distinct(doc: Doc) {
    DistinctNames(doc) && forall part :: part in doc ==> DistinctKeys(part.items)
  }

  predicate CleanItems(cfg: Config, items: seq<Item>) {
    forall item :: item in items ==> CleanKey(item.key) && CleanValue(cfg, item.value)
  }

  predicate CleanPart(cfg: Config, part: Part) {
    CleanSection(part.name) && CleanItems(cfg, part.items)
  }

  predicate Clean(cfg: Config, doc: Doc) {
    forall part :: part in doc ==> CleanPart(cfg, part)
  }

  /** What is left of a document that is saved and loaded: the section without a name moves to the
      front, and without any keys it is gone. */
  function Reloaded(doc: Doc): Doc {
    var d := EmptyFirst(doc);
    if d != [] && d[0] == Part("", []) then d[1..] else d
  }

  // ---- section headers

  lemma FindsName(cfg: Config, n: string, rest: string)
    requires CleanSection(n)
    ensures FindName(cfg, n + ("]" + ("\n" + rest))) == SectionFound(n, "\n" + rest)
  {
    hide TrimEnd;
    var b := n + ("]" + ("\n" + rest));
    UpToIs(n, ']', "]" + ("\n" + rest));
    assert b[|n| + 1..] == "" + ("\n" + rest);
    LineIs("", "\n" + rest);
    assert n + "" == n;
    TrimEndIs(n, "");
  }

  lemma FindsHeader(cfg: Config, ptr: Pointer, b: string)
    requires b != "" && !IsSpace(b[0])
    ensures Find(cfg, ptr, "[" + b) == FindName(cfg, b)
  {
    hide FindName;
    assert AfterSpaces("[" + b) == "[" + b && ("[" + b)[1..] == b && AfterSpaces(b) == b;
  }

  /** A printed section name is read back exactly when it is clean. */
  lemma SectionExact(cfg: Config, ptr: Pointer, n: string, rest: string)
    ensures Find(cfg, ptr, "[" + n + "]\n" + rest) == SectionFound(n, "\n" + rest) <==> CleanSection(n)
  {
    hide Find, FindName;
    var b := n + ("]" + ("\n" + rest));
    assert "[" + n + "]\n" + rest == "[" + b;
    FoundIsClean(cfg, ptr, "[" + b);
    if CleanSection(n) {
      assert b[0] == if n == "" then ']' else n[0];
      FindsHeader(cfg, ptr, b);
      FindsName(cfg, n, rest);
    }
  }

  // ---- reading the parts of a document

  lemma SpacesAreSkipped(cfg: Config, ptr: Pointer, s: string)
    ensures Find(cfg, ptr, "\n" + s) == Find(cfg, ptr.Past("\n"), s)
  {
    hide FindAt;
    var t := "\n" + s;
    assert t[1..] == s && Spaces(t) == 1 + Spaces(s);
    assert AfterSpaces(t) == AfterSpaces(s) && t[..Spaces(t)] == "\n" + s[..Spaces(s)];
    if ptr.Open? { assert ptr.text + ("\n" + s[..Spaces(s)]) == ptr.text + "\n" + s[..Spaces(s)]; }
  }

  lemma FeedIsSkipped(cfg: Config, doc: Doc, section: string, s: string)
    ensures Parse(cfg, doc, section, "\n" + s) == Parse(cfg, doc, section, s)
  {
    hide Find;
    SpacesAreSkipped(cfg, Ended(section), s);
  }

  lemma IndexOfLast(doc: Doc, part: Part)
    requires IndexOf(doc, part.name) == |doc|
    ensures IndexOf(doc + [part], part.name) == |doc|
  {
    var d := doc + [part];
    assert d[|doc|] == part && forall j :: 0 <= j < |doc| ==> d[j] == doc[j];
  }

  lemma NewItemGoesLast(doc: Doc, name: string, done: seq<Item>, item: Item)
    requires IndexOf(doc, name) == |doc| && KeyIndex(done, item.key) == |done|
    ensures AddItem(doc + [Part(name, done)], name, item) == doc + [Part(name, done + [item])]
  {
    IndexOfLast(doc, Part(name, done));
  }

  lemma KeyIsNew(done: seq<Item>, items: seq<Item>)
    requires items != [] && DistinctKeys(done + items)
    ensures KeyIndex(done, items[0].key) == |done|
  {
    var all := done + items;
    assert all[|done|] == items[0];
    forall i | 0 <= i < |done| ensures Fold(done[i].key) != Fold(items[0].key) { assert all[i] == done[i]; }
  }

  lemma {:induction false} ParseItems(cfg: Config, doc: Doc, name: string, done: seq<Item>, items: seq<Item>, rest: string)
    requires IndexOf(doc, name) == |doc| && DistinctKeys(done + items) && CleanItems(cfg, items)
    ensures Parse(cfg, doc + [Part(name, done)], name, PrintItems(cfg, items) + rest)
         == Parse(cfg, doc + [Part(name, done + items)], name, rest)
    decreases |items|
  {
    hide Find, PrintItem, CleanKey, CleanValue, AddItem;
    if items == [] {
      assert done + items == done && PrintItems(cfg, items) + rest == rest;
    } else {
      var tail := PrintItems(cfg, items[1..]) + rest;
      assert PrintItems(cfg, items) + rest == PrintItem(cfg, items[0]) + tail;
      ItemExact(cfg, Ended(name), items[0], tail);
      KeyIsNew(done, items);
      NewItemGoesLast(doc, name, done, items[0]);
      assert done + [items[0]] + items[1..] == done + items;
      ParseItems(cfg, doc, name, done + [items[0]], items[1..], rest);
    }
  }

  lemma NameIsNew(doc: Doc, parts: Doc)
    requires parts != [] && DistinctNames(doc + parts)
    ensures IndexOf(doc, parts[0].name) == |doc|
  {
    var all := doc + parts;
    assert all[|doc|] == parts[0];
    forall i | 0 <= i < |doc| ensures Fold(doc[i].name) != Fold(parts[0].name) { assert all[i] == doc[i]; }
  }

  /** One section with its header. */
  lemma ParsePart(cfg: Config, doc: Doc, section: string, part: Part, rest: string)
    requires IndexOf(doc, part.name) == |doc| && part.name != "" && DistinctKeys(part.items) && CleanPart(cfg, part)
    ensures Parse(cfg, doc, section, PrintHeader(part.name) + PrintItems(cfg, part.items) + rest)
         == Parse(cfg, doc + [part], part.name, rest)
  {
    hide Find, PrintItems, CleanItems, DistinctKeys, Parse;
    var body := PrintItems(cfg, part.items) + rest;
    assert PrintHeader(part.name) + PrintItems(cfg, part.items) + rest == "[" + part.name + "]\n" + body;
    ParseHeader(cfg, doc, section, part.name, body);
    assert [] + part.items == part.items;
    ParseItems(cfg, doc, part.name, [], part.items, rest);
  }

  lemma ParseHeader(cfg: Config, doc: Doc, section: string, name: string, body: string)
    requires IndexOf(doc, name) == |doc| && CleanSection(name)
    ensures Parse(cfg, doc, section, "[" + name + "]\n" + body) == Parse(cfg, doc + [Part(name, [])], name, body)
  {
    hide Find, CleanSection;
    SectionExact(cfg, Ended(section), name, body);
    FeedIsSkipped(cfg, doc + [Part(name, [])], name, body);
  }

  lemma PartsAreNew(doc: Doc, parts: Doc)
    requires parts != []
    ensures doc + [parts[0]] + parts[1..] == doc + parts
  {}

  lemma {:induction false} ParseParts(cfg: Config, doc: Doc, section: string, parts: Doc, needNewLine: bool)
    requires DistinctNames(doc + parts) && Clean(cfg, parts)
    requires forall part :: part in parts ==> part.name != "" && DistinctKeys(part.items)
    ensures Parse(cfg, doc, section, PrintParts(cfg, parts, needNewLine)) == doc + parts
    decreases |parts|
  {
    hide CleanPart, DistinctKeys, PrintHeader, PrintItems, Parse, Find;
    if parts == [] {
      ParseNothing(cfg, doc, section);
      assert doc + parts == doc;
    } else {
      var part, tail := parts[0], PrintParts(cfg, parts[1..], true);
      var s := PrintHeader(part.name) + PrintItems(cfg, part.items) + tail;
      if needNewLine {
        assert PrintParts(cfg, parts, needNewLine) == "\n" + ("\n" + s);
        FeedIsSkipped(cfg, doc, section, "\n" + s);
        FeedIsSkipped(cfg, doc, section, s);
      } else {
        assert PrintParts(cfg, parts, needNewLine) == s;
      }
      NameIsNew(doc, parts);
      ParsePart(cfg, doc, section, part, tail);
      PartsAreNew(doc, parts);
      ParseParts(cfg, doc + [part], part.name, parts[1..], true);
    }
  }

  lemma ParseNothing(cfg: Config, doc: Doc, section: string)
    ensures Parse(cfg, doc, section, "") == doc
  {}

  // ---- the section without a name

  lemma OnlyEmptyIsUnnamed(name: string)
    ensures Fold(name) == Fold("") <==> name == ""
  {}

  /** Moving it forward keeps the parts, and no other section lacks a name. */
  lemma EmptyFirstKeeps(cfg: Config, doc: Doc)
    requires Distinct(doc) && Clean(cfg, doc)
    ensures var d := EmptyFirst(doc);
            && |d| == |doc| && Distinct(d) && Clean(cfg, d) && (forall i :: 0 < i < |d| ==> d[i].name != "")
            && (IndexOf(doc, "") == |doc| ==> forall i :: 0 <= i < |d| ==> d[i].name != "")
            && (IndexOf(doc, "") < |doc| ==> d[0] == doc[IndexOf(doc, "")] && d[0].name == "")
  {
    hide CleanPart, DistinctKeys;
    var d, k := EmptyFirst(doc), IndexOf(doc, "");
    OnlyEmptyIsUnnamed(if k < |doc| then doc[k].name else "");
    forall i | 0 <= i < |d| ensures d[i] in doc && (i > 0 || k == |doc| ==> d[i].name != "") {
      var j := if k == |doc| then i else if i == 0 then k else if i <= k then i - 1 else i;
      assert d[i] == doc[j];
      OnlyEmptyIsUnnamed(doc[j].name);
    }
    assert forall part :: part in d ==> part in doc;
  }

  lemma FirstItemMakesSection(doc: Doc, name: string, item: Item)
    ensures AddItem(AddSection(doc, name), name, item) == AddItem(doc, name, item)
  {}

  /** Keys before the first header go to the section without a name, which the first of them makes. */
  lemma ParseUnnamed(cfg: Config, items: seq<Item>, rest: string)
    requires items != [] && DistinctKeys(items) && CleanItems(cfg, items)
    ensures Parse(cfg, [], "", PrintItems(cfg, items) + rest) == Parse(cfg, [Part("", items)], "", rest)
  {
    hide Find, PrintItem, CleanKey, CleanValue, AddItem;
    var tail := PrintItems(cfg, items[1..]) + rest;
    assert PrintItems(cfg, items) + rest == PrintItem(cfg, items[0]) + tail;
    ItemExact(cfg, Ended(""), items[0], tail);
    FirstItemMakesSection([], "", items[0]);
    assert [] + [Part("", [])] == [Part("", [])] && [] + items == items && [] + [Part("", items)] == [Part("", items)];
    ParseItems(cfg, [], "", [], items, rest);
  }

  lemma PrintUnnamed(cfg: Config, items: seq<Item>, parts: Doc)
    ensures PrintParts(cfg, [Part("", items)] + parts, false) == PrintItems(cfg, items) + PrintParts(cfg, parts, true)
  {
    hide PrintItems;
    var d := [Part("", items)] + parts;
    assert d[0] == Part("", items) && d[1..] == parts;
    assert "" + PrintHeader("") + PrintItems(cfg, items) == PrintItems(cfg, items);
  }

  lemma ParsePrinted(cfg: Config, d: Doc)
    requires Distinct(d) && Clean(cfg, d) && forall i :: 0 < i < |d| ==> d[i].name != ""
    ensures Parse(cfg, [], "", PrintParts(cfg, d, false)) == if d != [] && d[0] == Part("", []) then d[1..] else d
  {
    hide CleanPart, DistinctKeys, DistinctNames, Parse, PrintParts;
    assert forall part :: part in d ==> DistinctKeys(part.items);
    if d == [] || d[0].name != "" {
      assert [] + d == d;
      ParseParts(cfg, [], "", d, false);
    } else {
      var items, parts := d[0].items, d[1..];
      assert d == [Part("", items)] + parts;
      assert d[0] in d && forall part :: part in parts ==> part in d;
      PrintUnnamed(cfg, items, parts);
      ParseAfterUnnamed(cfg, items, parts);
    }
  }

  lemma ParseAfterUnnamed(cfg: Config, items: seq<Item>, parts: Doc)
    requires DistinctNames([Part("", items)] + parts) && DistinctKeys(items)
    requires CleanPart(cfg, Part("", items)) && Clean(cfg, parts)
    requires forall part :: part in parts ==> part.name != "" && DistinctKeys(part.items)
    ensures Parse(cfg, [], "", PrintItems(cfg, items) + PrintParts(cfg, parts, true))
         == if items == [] then parts else [Part("", items)] + parts
  {
    var rest := PrintParts(cfg, parts, true);
    hide DistinctKeys, DistinctNames, Clean, CleanItems, Parse, PrintParts;
    if items == [] {
      assert PrintItems(cfg, items) + rest == rest && [] + parts == parts;
      DistinctBehind(Part("", items), parts);
      ParseParts(cfg, [], "", parts, true);
    } else {
      ParseUnnamed(cfg, items, rest);
      ParseParts(cfg, [Part("", items)], "", parts, true);
    }
  }

  lemma DistinctBehind(part: Part, parts: Doc)
    requires DistinctNames([part] + parts)
    ensures DistinctNames(parts)
  {
    var d := [part] + parts;
    forall i, j | 0 <= i < j < |parts| ensures Fold(parts[i].name) != Fold(parts[j].name) {
      assert d[i + 1] == parts[i] && d[j + 1] == parts[j];
    }
  }

  // ---- the round trip

  /** Saving a document and loading the text rebuilds it, with its sections, keys and values in their
      order, except for the place of the section without a name. */
  lemma RoundTrip(cfg: Config, doc: Doc)
    requires Distinct(doc) && Clean(cfg, doc)
    ensures Load(cfg, [], SIGNATURE + Print(cfg, doc)) == Reloaded(doc)
    ensures !(SIGNATURE <= Print(cfg, doc)) ==> Load(cfg, [], Print(cfg, doc)) == Reloaded(doc)
  {
    EmptyFirstKeeps(cfg, doc);
    ParsePrinted(cfg, EmptyFirst(doc));
    assert (SIGNATURE + Print(cfg, doc))[3..] == Print(cfg, doc);
  }

  // ---- saving again

  /** The reloaded document is saved as the same text, except when a section without a name and keys
      made the first text start with blank lines. */
  lemma SavedAgain(cfg: Config, doc: Doc)
    requires Distinct(doc) && Clean(cfg, doc)
    ensures Print(cfg, Reloaded(doc)) == Print(cfg, doc) <==> !(Part("", []) in doc && |doc| > 1)
  {
    hide CleanPart, DistinctKeys, PrintParts, PrintItems, PrintHeader;
    EmptyFirstKeeps(cfg, doc);
    var d, k := EmptyFirst(doc), IndexOf(doc, "");
    if k < |doc| && doc[k] == Part("", []) {
      assert Part("", []) in doc;
      assert d == [Part("", [])] + d[1..];
      NoneUnnamed(d[1..]);
      SavedWithout(cfg, d[1..]);
    } else {
      if Part("", []) in doc { UnnamedIsFound(doc); }
      StaysFirst(d);
    }
  }

  /** A section without name and keys in front of others prints as two more newlines. */
  lemma SavedWithout(cfg: Config, parts: Doc)
    ensures PrintParts(cfg, [Part("", [])] + parts, false)
         == if parts == [] then PrintParts(cfg, parts, false) else "\n\n" + PrintParts(cfg, parts, false)
  {
    hide PrintItems, PrintHeader;
    PrintUnnamed(cfg, [], parts);
    NothingPrinted(cfg, parts);
    if parts != [] { PrintStartsLater(cfg, parts); }
  }

  lemma NothingPrinted(cfg: Config, parts: Doc)
    ensures PrintItems(cfg, []) + PrintParts(cfg, parts, true) == PrintParts(cfg, parts, true)
  {
    assert "" + PrintParts(cfg, parts, true) == PrintParts(cfg, parts, true);
  }

  lemma UnnamedIsFound(doc: Doc)
    requires Part("", []) in doc && DistinctNames(doc)
    ensures IndexOf(doc, "") < |doc| && doc[IndexOf(doc, "")] == Part("", [])
  {
    var i :| 0 <= i < |doc| && doc[i] == Part("", []);
    assert Fold(doc[i].name) == Fold("");
  }

  lemma NoneUnnamed(d: Doc)
    requires forall i :: 0 <= i < |d| ==> d[i].name != ""
    ensures EmptyFirst(d) == d
  {
    if IndexOf(d, "") < |d| { OnlyEmptyIsUnnamed(d[IndexOf(d, "")].name); }
  }

  lemma StaysFirst(d: Doc)
    requires forall i :: 0 < i < |d| ==> d[i].name != ""
    ensures EmptyFirst(d) == d
  {
    var k := IndexOf(d, "");
    if k < |d| {
      OnlyEmptyIsUnnamed(d[k].name);
      assert k == 0;
    }
  }

  lemma PrintStartsLater(cfg: Config, d: Doc)
    requires d != []
    ensures PrintParts(cfg, d, true) == "\n\n" + PrintParts(cfg, d, false)
  {
    var a, b, c := PrintHeader(d[0].name), PrintItems(cfg, d[0].items), PrintParts(cfg, d[1..], true);
    assert "" + a + b + c == a + b + c && "\n\n" + a + b + c == "\n\n" + (a + b + c);
  }
}
