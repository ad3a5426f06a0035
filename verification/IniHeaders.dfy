/** Section headers without a closing bracket: the pointer to the section name has been moved to them
    all the same, so that a key after one is stored under a name that runs over line ends. What that
    does to loading any text, and what survives. */
module IniHeaders {
  import opened Wrappers
  import opened IniText
  import opened IniSyntax
  import opened IniLaws
  import opened IniRoundTrip

  // ---- the condition, read off the lines of the text

  /** Whether some key comes after a header without closing bracket and before the next good header;
      `open` says that such a header came before `s`. */
  predicate Misplaces(cfg: Config, open: bool, s: string)
    decreases |s|, 1
  {
    MisplacesAt(cfg, open, AfterSpaces(s))
  }

  predicate MisplacesAt(cfg: Config, open: bool, a: string)
    requires a != "" ==> !IsSpace(a[0])
    decreases |a|, 0
  {
    if a == "" then false
    else if IsComment(a[0]) then Misplaces(cfg, open, TailOf(a))
    else if a[0] == '[' then MisplacesIn(cfg, AfterSpaces(a[1..]))
    else
      var end := UpTo(a, '=');
      if end == |a| || a[end] != '=' then Misplaces(cfg, open, a[end..])
      else if end == 0 then Misplaces(cfg, open, TailOf(a))
      else
        match FindValue(cfg, "", "", AfterBlanks(a[end + 1..]))
        case ItemFound(_, _, rest) => open || Misplaces(cfg, false, rest)
        case _ => false
  }

  predicate MisplacesIn(cfg: Config, b: string)
    decreases |b|, 2
  {
    var end := UpTo(b, ']');
    if end == |b| || b[end] != ']' then Misplaces(cfg, true, b[end..]) else Misplaces(cfg, false, TailOf(b[end + 1..]))
  }

  // ---- what an open header does to the name found with a key

  /** The name at the pointer runs, or will run, over the end of a line. */
  predicate RunsOn(ptr: Pointer) {
    ptr.Ended? ==> !OneLine(ptr.name)
  }

  predicate Opened(ptr: Pointer, s: string) {
    ptr.Open? && s != "" ==> !OneLine(ptr.text) || IsNewLine(s[0])
  }

  ghost predicate FoundAsScanned(cfg: Config, ptr: Pointer, misplaces: bool, f: Found) {
    match f
    case NoMore => !misplaces
    case SectionFound(_, rest) => misplaces == Misplaces(cfg, false, rest)
    case ItemFound(section, _, rest) =>
      if OneLine(section) then ptr == Ended(section) && misplaces == Misplaces(cfg, false, rest) else misplaces
  }

  lemma Joins(a: string, b: string)
    ensures OneLine(a + b) <==> OneLine(a) && OneLine(b)
  {
    forall c | c in a ensures c in a + b {}
    forall c | c in b ensures c in a + b {}
  }

  lemma SpacesJoin(ptr: Pointer, s: string)
    requires Opened(ptr, s)
    ensures var p := ptr.Past(s[..Spaces(s)]);
            RunsOn(p) == RunsOn(ptr) && (ptr.Ended? ==> p == ptr) && (p.Open? && AfterSpaces(s) != "" ==> !OneLine(p.text))
  {
    if ptr.Open? {
      var spaces := s[..Spaces(s)];
      Joins(ptr.text, spaces);
      if s != "" && IsNewLine(s[0]) { assert spaces[0] in spaces; }
    }
  }

  lemma {:induction false} FindScans(cfg: Config, ptr: Pointer, s: string)
    requires Opened(ptr, s)
    ensures FoundAsScanned(cfg, ptr, Misplaces(cfg, RunsOn(ptr), s), Find(cfg, ptr, s))
    decreases |s|, 2
  {
    hide OneLine;
    SpacesJoin(ptr, s);
    FindAtScans(cfg, ptr.Past(s[..Spaces(s)]), AfterSpaces(s));
  }

  lemma {:induction false} FindAtScans(cfg: Config, ptr: Pointer, a: string)
    requires (a != "" ==> !IsSpace(a[0])) && (ptr.Open? && a != "" ==> !OneLine(ptr.text))
    ensures FoundAsScanned(cfg, ptr, MisplacesAt(cfg, RunsOn(ptr), a), FindAt(cfg, ptr, a))
    decreases |a|, 1
  {
    hide Comment, OneLine, TrimEnd, FindValue, UpTo;
    if a == "" {
    } else if IsComment(a[0]) {
      var (text, rest) := Comment(a, "");
      if ptr.Open? { Joins(ptr.text, text); }
      FindScans(cfg, Ended(ptr.EndedBy(text)), rest);
      CommentIsSkipped(cfg, RunsOn(ptr), a, "");
    } else if a[0] == '[' {
      FindNameScans(cfg, ptr, AfterSpaces(a[1..]));
    } else {
      FindKeyScans(cfg, ptr, a);
    }
  }

  lemma {:induction false} FindKeyScans(cfg: Config, ptr: Pointer, a: string)
    requires a != "" && !IsSpace(a[0]) && !IsComment(a[0]) && a[0] != '[' && (ptr.Open? ==> !OneLine(ptr.text))
    ensures FoundAsScanned(cfg, ptr, MisplacesAt(cfg, RunsOn(ptr), a), FindAt(cfg, ptr, a))
    decreases |a|, 0
  {
    hide FoundAsScanned, Misplaces, Find, Comment, OneLine, TrimEnd, FindValue, UpTo;
    var end := UpTo(a, '=');
    if end == |a| || a[end] != '=' {
      RunsOnPast(ptr, a[..end]);
      FindScans(cfg, ptr.Past(a[..end]), a[end..]);
      SamePointer(cfg, ptr, ptr.Past(a[..end]), Misplaces(cfg, RunsOn(ptr), a[end..]), Find(cfg, ptr.Past(a[..end]), a[end..]));
    } else if end == 0 {
      RunsOnPast(ptr, LineOf(a));
      FindScans(cfg, ptr.Past(LineOf(a)), TailOf(a));
      SamePointer(cfg, ptr, ptr.Past(LineOf(a)), Misplaces(cfg, RunsOn(ptr), TailOf(a)), Find(cfg, ptr.Past(LineOf(a)), TailOf(a)));
    } else {
      KeyScans(cfg, ptr, TrimEnd(a[..end]), AfterBlanks(a[end + 1..]), a);
    }
  }

  lemma RunsOnPast(ptr: Pointer, c: string)
    requires ptr.Open? ==> !OneLine(ptr.text)
    ensures var p := ptr.Past(c);
            RunsOn(p) == RunsOn(ptr) && (ptr.Ended? ==> p == ptr) && (p.Open? ==> ptr.Open? && !OneLine(p.text))
  {
    if ptr.Open? { Joins(ptr.text, c); }
  }

  lemma SamePointer(cfg: Config, ptr: Pointer, p: Pointer, misplaces: bool, f: Found)
    requires FoundAsScanned(cfg, p, misplaces, f) && (ptr.Ended? ==> p == ptr) && (p.Open? ==> ptr.Open?) && (p.Ended? ==> ptr.Ended?)
    ensures FoundAsScanned(cfg, ptr, misplaces, f)
  {
    hide Misplaces, OneLine;
  }

  lemma KeyScans(cfg: Config, ptr: Pointer, key: string, v: string, a: string)
    requires a != "" && !IsSpace(a[0]) && !IsComment(a[0]) && a[0] != '[' && (ptr.Open? ==> !OneLine(ptr.text))
    requires var end := UpTo(a, '='); 0 < end < |a| && a[end] == '=' && key == TrimEnd(a[..end]) && v == AfterBlanks(a[end + 1..])
    ensures FoundAsScanned(cfg, ptr, MisplacesAt(cfg, RunsOn(ptr), a), FindAt(cfg, ptr, a))
  {
    hide OneLine, TrimEnd, FindValue, UpTo, Misplaces;
    if ptr.Open? { Joins(ptr.text, key); }
    SameRest(cfg, ptr.EndedBy(key), key, v);
  }

  lemma {:induction false} FindNameScans(cfg: Config, ptr: Pointer, b: string)
    ensures FoundAsScanned(cfg, ptr, MisplacesIn(cfg, b), FindName(cfg, b))
    decreases |b|, 3
  {
    hide OneLine;
    var end := UpTo(b, ']');
    if end == |b| || b[end] != ']' {
      FindScans(cfg, Open(b[..end]), b[end..]);
    }
  }

  /** The section and key do not change how far a value reaches. */
  lemma SameRest(cfg: Config, section: string, key: string, v: string)
    ensures var f, g := FindValue(cfg, section, key, v), FindValue(cfg, "", "", v);
            (f.NoMore? <==> g.NoMore?) && (f.ItemFound? ==> f.rest == g.rest)
  {}

  /** Comment lines are skipped one by one as they are together. */
  lemma {:induction false} CommentIsSkipped(cfg: Config, open: bool, s: string, done: string)
    requires done != "" || (s != "" && IsComment(s[0]))
    ensures Misplaces(cfg, open, s) == Misplaces(cfg, open, Comment(s, done).1)
    decreases |s|
  {
    if s != "" && IsComment(s[0]) {
      var tail := TailOf(s);
      assert AfterSpaces(s) == s;
      if tail != "" {
        NewLineIsSkipped(cfg, open, tail);
        CommentIsSkipped(cfg, open, AfterNewLine(tail), done + LineOf(s) + "\n");
      }
    } else {
      var t := AfterSpaces(s);
      if t != "" && IsComment(t[0]) {
        assert AfterSpaces(t) == t;
        CommentIsSkipped(cfg, open, t, done + BlankLines(s));
      }
    }
  }

  lemma NewLineIsSkipped(cfg: Config, open: bool, tail: string)
    requires tail != "" && IsNewLine(tail[0])
    ensures Misplaces(cfg, open, tail) == Misplaces(cfg, open, AfterNewLine(tail))
  {
    var n := NewLineLength(tail);
    assert forall j :: 0 <= j < n ==> IsSpace(tail[j]);
    assert AfterSpaces(tail) == AfterSpaces(tail[n..]) by {
      SpacesSplit(tail, n);
    }
  }

  lemma {:induction false} SpacesSplit(s: string, n: nat)
    requires n <= |s| && forall j :: 0 <= j < n ==> IsSpace(s[j])
    ensures AfterSpaces(s) == AfterSpaces(s[n..])
  {
    var k := Spaces(s[n..]);
    assert Spaces(s) == n + k;
    assert s[n..][k..] == s[n + k..];
  }

  // ---- the names and contents of what was loaded

  predicate CleanNames(doc: Doc) {
    forall part :: part in doc ==> CleanSection(part.name)
  }

  predicate CleanContents(cfg: Config, doc: Doc) {
    forall part :: part in doc ==> CleanItems(cfg, part.items)
  }

  lemma CleanIsBoth(cfg: Config, doc: Doc)
    ensures Clean(cfg, doc) <==> CleanNames(doc) && CleanContents(cfg, doc)
  {
    hide CleanSection, CleanItems;
    if CleanNames(doc) && CleanContents(cfg, doc) {
      forall part | part in doc ensures CleanPart(cfg, part) {}
    }
    if Clean(cfg, doc) {
      forall part | part in doc ensures CleanSection(part.name) && CleanItems(cfg, part.items) { assert CleanPart(cfg, part); }
    }
  }

  /** Adding changes no name that is there, and adds at most the given one. */
  lemma AddedNames(doc: Doc, section: string, item: Item)
    ensures |AddItem(doc, section, item)| == |AddSection(doc, section)| >= |doc|
    ensures forall i :: 0 <= i < |doc| ==>
              AddSection(doc, section)[i] == doc[i] && AddItem(doc, section, item)[i].name == doc[i].name
    ensures |AddSection(doc, section)| > |doc| ==>
              AddSection(doc, section)[|doc|].name == section && AddItem(doc, section, item)[|doc|].name == section
    ensures |AddSection(doc, section)| <= |doc| + 1
    ensures exists i :: 0 <= i < |AddItem(doc, section, item)| && Fold(AddItem(doc, section, item)[i].name) == Fold(section)
  {
    hide PutItem;
    var d := AddSection(doc, section);
    var i := IndexOf(d, section);
    assert Fold(AddItem(doc, section, item)[i].name) == Fold(section);
  }

  lemma AddKeepsNames(doc: Doc, section: string, item: Item)
    requires CleanNames(doc) && CleanSection(section)
    ensures CleanNames(AddSection(doc, section)) && CleanNames(AddItem(doc, section, item))
  {
    hide CleanSection, AddItem, AddSection;
    AddedNames(doc, section, item);
    forall part | part in AddSection(doc, section) ensures CleanSection(part.name) {
      var i :| 0 <= i < |AddSection(doc, section)| && AddSection(doc, section)[i] == part;
      assert i < |doc| ==> doc[i] in doc;
    }
    forall part | part in AddItem(doc, section, item) ensures CleanSection(part.name) {
      var i :| 0 <= i < |AddItem(doc, section, item)| && AddItem(doc, section, item)[i] == part;
      assert i < |doc| ==> doc[i] in doc;
    }
  }

  /** Some section name has a line end in it. */
  predicate HasRunOnName(doc: Doc) {
    exists i :: 0 <= i < |doc| && !OneLine(doc[i].name)
  }

  lemma {:induction false} FoldKeepsLines(a: string, b: string)
    requires Fold(a) == Fold(b)
    ensures OneLine(a) <==> OneLine(b)
  {
    if a != "" {
      assert b != "" && Lower(a[0]) == Lower(b[0]) && Fold(a[1..]) == Fold(b[1..]) by {
        assert Fold(a)[1..] == Fold(a[1..]) && Fold(b)[1..] == Fold(b[1..]) && Fold(a)[0] == Fold(b)[0];
      }
      FoldKeepsLines(a[1..], b[1..]);
      Joins([a[0]], a[1..]);
      Joins([b[0]], b[1..]);
      assert a == [a[0]] + a[1..] && b == [b[0]] + b[1..];
    }
  }

  lemma AddKeepsRunOn(doc: Doc, section: string, item: Item)
    ensures HasRunOnName(doc) ==> HasRunOnName(AddSection(doc, section)) && HasRunOnName(AddItem(doc, section, item))
    ensures !OneLine(section) ==> HasRunOnName(AddItem(doc, section, item))
  {
    hide OneLine, AddItem, AddSection;
    AddedNames(doc, section, item);
    if HasRunOnName(doc) {
      var i :| 0 <= i < |doc| && !OneLine(doc[i].name);
      assert AddSection(doc, section)[i] == doc[i] && AddItem(doc, section, item)[i].name == doc[i].name;
    }
    var d := AddItem(doc, section, item);
    var i :| 0 <= i < |d| && Fold(d[i].name) == Fold(section);
    FoldKeepsLines(d[i].name, section);
  }

  lemma {:induction false} RunOnStays(cfg: Config, doc: Doc, section: string, s: string)
    requires HasRunOnName(doc)
    ensures HasRunOnName(Parse(cfg, doc, section, s))
    decreases |s|
  {
    hide Find, HasRunOnName, AddItem, AddSection;
    match Find(cfg, Ended(section), s)
    case NoMore =>
    case SectionFound(name, rest) =>
      AddKeepsRunOn(doc, name, Item("", ""));
      RunOnStays(cfg, AddSection(doc, name), name, rest);
    case ItemFound(name, item, rest) =>
      AddKeepsRunOn(doc, name, item);
      RunOnStays(cfg, AddItem(doc, name, item), name, rest);
  }

  lemma RunOnIsUnclean(doc: Doc)
    requires HasRunOnName(doc)
    ensures !CleanNames(doc)
  {
    var i :| 0 <= i < |doc| && !OneLine(doc[i].name);
    assert doc[i] in doc;
  }

  /** Loading gives clean section names exactly when the text misplaces no key. */
  lemma {:induction false} NamesExact(cfg: Config, doc: Doc, section: string, s: string)
    requires CleanNames(doc) && CleanSection(section)
    ensures CleanNames(Parse(cfg, doc, section, s)) <==> !Misplaces(cfg, false, s)
    decreases |s|
  {
    hide Find, CleanNames, HasRunOnName, AddItem, AddSection, Misplaces;
    var f := Find(cfg, Ended(section), s);
    FindScans(cfg, Ended(section), s);
    FoundIsClean(cfg, Ended(section), s);
    match f
    case NoMore =>
    case SectionFound(name, rest) =>
      AddKeepsNames(doc, name, Item("", ""));
      NamesExact(cfg, AddSection(doc, name), name, rest);
    case ItemFound(name, item, rest) =>
      if OneLine(name) {
        AddKeepsNames(doc, name, item);
        NamesExact(cfg, AddItem(doc, name, item), name, rest);
      } else {
        AddKeepsRunOn(doc, name, item);
        RunOnStays(cfg, AddItem(doc, name, item), name, rest);
        RunOnIsUnclean(Parse(cfg, doc, section, s));
      }
  }

  // ---- keys and values

  lemma PutItemKeeps(cfg: Config, items: seq<Item>, item: Item)
    requires DistinctKeys(items) && CleanItems(cfg, items) && CleanKey(item.key) && CleanValue(cfg, item.value)
    ensures DistinctKeys(PutItem(items, item)) && CleanItems(cfg, PutItem(items, item))
  {
    hide CleanKey, CleanValue;
    var put := PutItem(items, item);
    forall i, j | 0 <= i < j < |put| ensures Fold(put[i].key) != Fold(put[j].key) {}
    forall p | p in put ensures CleanKey(p.key) && CleanValue(cfg, p.value) {
      var i :| 0 <= i < |put| && put[i] == p;
      assert i < |items| ==> items[i] in items;
    }
  }

  lemma AddSectionKeeps(cfg: Config, doc: Doc, name: string)
    requires Distinct(doc) && CleanContents(cfg, doc)
    ensures Distinct(AddSection(doc, name)) && CleanContents(cfg, AddSection(doc, name))
  {
    var d := AddSection(doc, name);
    forall i, j | 0 <= i < j < |d| ensures Fold(d[i].name) != Fold(d[j].name) {}
  }

  lemma AddItemKeeps(cfg: Config, doc: Doc, section: string, item: Item)
    requires Distinct(doc) && CleanContents(cfg, doc) && CleanKey(item.key) && CleanValue(cfg, item.value)
    ensures Distinct(AddItem(doc, section, item)) && CleanContents(cfg, AddItem(doc, section, item))
  {
    hide CleanKey, CleanValue, CleanItems, DistinctKeys, PutItem, AddSection;
    AddSectionKeeps(cfg, doc, section);
    var d := AddSection(doc, section);
    var i := IndexOf(d, section);
    assert d[i] in d;
    PutItemKeeps(cfg, d[i].items, item);
    var d' := AddItem(doc, section, item);
    forall part | part in d' ensures CleanItems(cfg, part.items) && DistinctKeys(part.items) {
      var j :| 0 <= j < |d'| && d'[j] == part;
      assert j != i ==> d'[j] == d[j] && d[j] in d;
    }
  }

  /** Names stay distinct without regard to case, and without multi-line values every key and value
      that is loaded is clean. */
  lemma {:induction false} ContentsAreClean(cfg: Config, doc: Doc, section: string, s: string)
    requires !cfg.multiLine && Distinct(doc) && CleanContents(cfg, doc)
    ensures Distinct(Parse(cfg, doc, section, s)) && CleanContents(cfg, Parse(cfg, doc, section, s))
    decreases |s|
  {
    hide Find, Distinct, CleanContents, CleanKey, NeedsMultiLine, AddItem, AddSection;
    FoundIsClean(cfg, Ended(section), s);
    match Find(cfg, Ended(section), s)
    case NoMore =>
    case SectionFound(name, rest) =>
      AddSectionKeeps(cfg, doc, name);
      ContentsAreClean(cfg, AddSection(doc, name), name, rest);
    case ItemFound(name, item, rest) =>
      AddItemKeeps(cfg, doc, name, item);
      ContentsAreClean(cfg, AddItem(doc, name, item), name, rest);
  }

  // ---- what survives

  /** The text behind a signature. */
  function Body(text: string): string {
    if SIGNATURE <= text then text[3..] else text
  }

  lemma NothingLoaded(cfg: Config)
    ensures Distinct([]) && CleanContents(cfg, [])
  {}

  /** Without multi-line values what was loaded from a text is clean exactly when the text misplaces no
      key ... */
  lemma LoadedIsClean(cfg: Config, text: string)
    requires !cfg.multiLine
    ensures Distinct(Load(cfg, [], text))
    ensures Clean(cfg, Load(cfg, [], text)) <==> !Misplaces(cfg, false, Body(text))
  {
    hide Parse, Misplaces, CleanContents, Distinct;
    NothingLoaded(cfg);
    ContentsAreClean(cfg, [], "", Body(text));
    NamesExact(cfg, [], "", Body(text));
    CleanIsBoth(cfg, Load(cfg, [], text));
  }

  /** ... and then survives being saved and loaded again. */
  lemma LoadedSurvives(cfg: Config, text: string)
    requires !cfg.multiLine && !Misplaces(cfg, false, Body(text))
    ensures var doc := Load(cfg, [], text);
            && Load(cfg, [], SIGNATURE + Print(cfg, doc)) == Reloaded(doc)
            && (!(SIGNATURE <= Print(cfg, doc)) ==> Load(cfg, [], Print(cfg, doc)) == Reloaded(doc))
  {
    hide Parse, Print, Reloaded, Misplaces;
    LoadedIsClean(cfg, text);
    RoundTrip(cfg, Load(cfg, [], text));
  }

  lemma ReloadedClean(cfg: Config, doc: Doc)
    ensures Clean(cfg, Reloaded(doc)) <==> Clean(cfg, doc)
  {
    hide CleanSection, CleanItems;
    var d, r, k := EmptyFirst(doc), Reloaded(doc), IndexOf(doc, "");
    forall part ensures part in d <==> part in doc {
      if k < |doc| { assert doc == doc[..k] + [doc[k]] + doc[k + 1..]; }
    }
    NothingIsClean(cfg);
    assert r != d ==> d == [Part("", [])] + r;
    forall part | part in d ensures part in r || part == Part("", []) {}
    forall part | part in r ensures part in d {}
  }

  lemma NothingIsClean(cfg: Config)
    ensures CleanPart(cfg, Part("", []))
  {}

  // ---- the texts for which it goes wrong

  lemma OpenHeader(cfg: Config, section: string, n: string, s: string)
    requires n != "" && OneLine(n) && ']' !in n && !IsSpace(n[0])
    ensures Find(cfg, Ended(section), "[" + n + "\n" + s) == Find(cfg, Open(n + "\n"), s)
  {
    hide Find;
    var b := n + ("\n" + s);
    assert "[" + n + "\n" + s == "[" + b;
    FindsHeader(cfg, Ended(section), b);
    forall j | 0 <= j < |n| ensures b[j] != ']' && !IsNewLine(b[j]) { assert n[j] in n; }
    UpToUnique(b, ']', |n|);
    assert b[..|n|] == n && b[|n|..] == "\n" + s;
    SpacesAreSkipped(cfg, Open(n), s);
  }

  /** A key after a header without closing bracket is stored under the text from the header to the key:
      `[bad`, newline, `x=2` gives the key `x` in a section whose name is `bad`, newline, `x`. */
  lemma OpenHeaderTakesKey(cfg: Config, doc: Doc, section: string, n: string, item: Item, rest: string)
    requires n != "" && OneLine(n) && ']' !in n && !IsSpace(n[0])
    requires CleanKey(item.key) && CleanValue(cfg, item.value)
    ensures var name := n + "\n" + item.key;
            && Parse(cfg, doc, section, "[" + n + "\n" + (PrintItem(cfg, item) + rest))
               == Parse(cfg, AddItem(doc, name, item), name, rest)
            && !CleanSection(name)
  {
    hide Find, PrintItem, CleanKey, CleanValue, AddItem;
    OpenHeader(cfg, section, n, PrintItem(cfg, item) + rest);
    ItemExact(cfg, Open(n + "\n"), item, rest);
    var name := n + "\n" + item.key;
    RunsOver(name, |n|);
  }

  lemma OtherLine(cfg: Config, ptr: Pointer, j: string, s: string)
    requires j != "" && OneLine(j) && '=' !in j && !IsSpace(j[0]) && !IsComment(j[0]) && j[0] != '['
    ensures Find(cfg, ptr, j + ("\n" + s)) == Find(cfg, ptr.Past(j).Past("\n"), s)
  {
    var t := j + ("\n" + s);
    NoSpacesPast(ptr, t);
    forall i | 0 <= i < |j| ensures t[i] != '=' && !IsNewLine(t[i]) { assert j[i] in j; }
    UpToUnique(t, '=', |j|);
    assert t[..|j|] == j && t[|j|..] == "\n" + s;
    assert FindAt(cfg, ptr, t) == Find(cfg, ptr.Past(j), "\n" + s);
    SpacesAreSkipped(cfg, ptr.Past(j), s);
  }

  /** What was stored so does not survive: saved and loaded again it has yet another name. */
  lemma MisplacedKeyMoves(cfg: Config, n: string, item: Item)
    requires n != "" && OneLine(n) && ']' !in n && !IsSpace(n[0])
    requires CleanKey(item.key) && CleanValue(cfg, item.value)
    ensures var k := item.key;
            && Load(cfg, [], "[" + n + "\n" + PrintItem(cfg, item)) == [Part(n + "\n" + k, [item])]
            && Load(cfg, [], Print(cfg, [Part(n + "\n" + k, [item])])) == [Part(n + "\n" + (k + "]") + "\n" + k, [item])]
  {
    hide Find, PrintItem, CleanKey, CleanValue, AddItem, Parse;
    var k, line := item.key, PrintItem(cfg, item);
    var first := "[" + n + "\n" + line;
    assert line + "" == line;
    OpenHeaderTakesKey(cfg, [], "", n, item, "");
    AddedToNothing(n + "\n" + k, item);
    ParseNothing(cfg, [Part(n + "\n" + k, [item])], n + "\n" + k);
    assert !(SIGNATURE <= first) by { assert first[0] == '['; }
    LastLineMoves(cfg, n, item);
  }

  lemma KeyX(cfg: Config)
    requires !cfg.spaces
    ensures PrintItem(cfg, Item("x", "2")) == "x=2\n" && CleanKey("x") && CleanValue(cfg, "2")
  {
    assert "x"[0] == 'x' && "2"[0] == '2';
  }

  lemma RunsOver(name: string, i: nat)
    requires i < |name| && name[i] == '\n'
    ensures !CleanSection(name)
  {
    assert name[i] in name;
  }

  /** The shortest such text. */
  lemma BadHeader(cfg: Config)
    requires !cfg.spaces
    ensures Load(cfg, [], "[bad\nx=2\n") == [Part("bad\nx", [Item("x", "2")])]
    ensures !CleanNames(Load(cfg, [], "[bad\nx=2\n"))
  {
    hide Load, PrintItem;
    KeyX(cfg);
    assert "bad"[0] == 'b' && OneLine("bad");
    assert "[" + "bad" + "\n" + "x=2\n" == "[bad\nx=2\n" && "bad" + "\n" + "x" == "bad\nx";
    MisplacedKeyMoves(cfg, "bad", Item("x", "2"));
    RunsOver("bad\nx", 3);
    assert Part("bad\nx", [Item("x", "2")]) in Load(cfg, [], "[bad\nx=2\n");
  }

  lemma AddedToNothing(name: string, item: Item)
    ensures AddItem([], name, item) == [Part(name, [item])]
  {
    assert AddSection([], name) == [Part(name, [])];
    assert PutItem([], item) == [item];
    assert IndexOf([Part(name, [])], name) == 0;
  }

  lemma LastLineMoves(cfg: Config, n: string, item: Item)
    requires n != "" && OneLine(n) && ']' !in n && !IsSpace(n[0])
    requires CleanKey(item.key) && CleanValue(cfg, item.value)
    ensures var k := item.key;
            Load(cfg, [], Print(cfg, [Part(n + "\n" + k, [item])])) == [Part(n + "\n" + (k + "]") + "\n" + k, [item])]
  {
    hide Find, PrintItem, CleanKey, CleanValue, AddItem, Parse;
    var k, line := item.key, PrintItem(cfg, item);
    var name := n + "\n" + (k + "]") + "\n" + k;
    var text := "[" + n + "\n" + (k + "]" + ("\n" + line));
    PrintedOne(cfg, n + "\n" + k, item);
    assert "[" + (n + "\n" + k) + "]\n" + line == text;
    assert text[0] == '[' && !(SIGNATURE <= text);
    LastLineParsed(cfg, n, item);
    AddedToNothing(name, item);
    ParseNothing(cfg, [Part(name, [item])], name);
  }

  lemma LastLineParsed(cfg: Config, n: string, item: Item)
    requires n != "" && OneLine(n) && ']' !in n && !IsSpace(n[0])
    requires CleanKey(item.key) && CleanValue(cfg, item.value)
    ensures var k := item.key;
            var name := n + "\n" + (k + "]") + "\n" + k;
            Parse(cfg, [], "", "[" + n + "\n" + (k + "]" + ("\n" + PrintItem(cfg, item))))
              == Parse(cfg, AddItem([], name, item), name, "")
  {
    hide Find, PrintItem, CleanValue, AddItem;
    var k, line := item.key, PrintItem(cfg, item);
    OpenHeader(cfg, "", n, k + "]" + ("\n" + line));
    assert (k + "]")[0] == k[0] && OneLine(k + "]");
    OtherLine(cfg, Open(n + "\n"), k + "]", line);
    ItemExact(cfg, Open(n + "\n" + (k + "]") + "\n"), item, "");
    assert line + "" == line;
  }

  lemma PrintedOne(cfg: Config, name: string, item: Item)
    requires name != ""
    ensures Print(cfg, [Part(name, [item])]) == "[" + name + "]\n" + PrintItem(cfg, item)
  {
    hide PrintItem;
    var d := [Part(name, [item])];
    NoneUnnamed(d);
    assert PrintItems(cfg, [item]) == PrintItem(cfg, item) + PrintItems(cfg, []);
    assert PrintItem(cfg, item) + "" == PrintItem(cfg, item);
    assert d[1..] == [];
    var h := "[" + name + "]\n";
    assert PrintParts(cfg, d, false) == "" + h + PrintItem(cfg, item) + PrintParts(cfg, [], true);
    assert "" + h + PrintItem(cfg, item) + "" == h + PrintItem(cfg, item);
  }
}
