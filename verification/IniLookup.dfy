/** What a document holds under a name, and what adding an entry changes of that. */
module IniLookup {
  import opened Wrappers
  import opened IniText
  import opened IniSyntax
  import opened IniRoundTrip
  import opened IniLines

  /** The key has the value among the items, upper and lower case alike. */
  ghost predicate HasItem(items: seq<Item>, key: string, value: string) {
    exists j :: 0 <= j < |items| && CaseVariants(items[j].key, key) && items[j].value == value
  }

  ghost predicate HasSection(doc: Doc, name: string) {
    exists i :: 0 <= i < |doc| && CaseVariants(doc[i].name, name)
  }

  ghost predicate Holds(doc: Doc, section: string, key: string, value: string) {
    exists i :: 0 <= i < |doc| && CaseVariants(doc[i].name, section) && HasItem(doc[i].items, key, value)
  }

  /** No two sections, and no two keys of one section, are case variants. */
  ghost predicate Unambiguous(doc: Doc) {
    && (forall i, j :: 0 <= i < j < |doc| ==> !CaseVariants(doc[i].name, doc[j].name))
    && (forall i :: 0 <= i < |doc| ==> UnambiguousKeys(doc[i].items))
  }

  ghost predicate UnambiguousKeys(items: seq<Item>) {
    forall j, k :: 0 <= j < k < |items| ==> !CaseVariants(items[j].key, items[k].key)
  }

  lemma DistinctIsUnambiguous(doc: Doc)
    ensures Distinct(doc) <==> Unambiguous(doc)
  {
    forall i, j | 0 <= i < j < |doc| ensures Fold(doc[i].name) == Fold(doc[j].name) <==> CaseVariants(doc[i].name, doc[j].name) {
      FoldsAreVariants(doc[i].name, doc[j].name);
    }
    forall i | 0 <= i < |doc| ensures DistinctKeys(doc[i].items) <==> UnambiguousKeys(doc[i].items) {
      DistinctKeysAre(doc[i].items);
    }
    hide DistinctKeys, UnambiguousKeys, CaseVariants, Fold;
    assert forall i :: 0 <= i < |doc| ==> doc[i] in doc;
  }

  lemma DistinctKeysAre(items: seq<Item>)
    ensures DistinctKeys(items) <==> UnambiguousKeys(items)
  {
    hide CaseVariants, Fold;
    forall j, k | 0 <= j < k < |items| ensures Fold(items[j].key) == Fold(items[k].key) <==> CaseVariants(items[j].key, items[k].key) {
      FoldsAreVariants(items[j].key, items[k].key);
    }
  }

  /** The searches find the first case variant, and nothing just when there is none. */
  lemma IndexIsFirst(doc: Doc, name: string)
    ensures var i := IndexOf(doc, name);
            && (i < |doc| ==> CaseVariants(doc[i].name, name))
            && (forall j :: 0 <= j < i ==> !CaseVariants(doc[j].name, name))
  {
    hide CaseVariants, Fold;
    forall j | 0 <= j < |doc| ensures Fold(doc[j].name) == Fold(name) <==> CaseVariants(doc[j].name, name) {
      FoldsAreVariants(doc[j].name, name);
    }
  }

  lemma KeyIndexIsFirst(items: seq<Item>, key: string)
    ensures var i := KeyIndex(items, key);
            && (i < |items| ==> CaseVariants(items[i].key, key))
            && (forall j :: 0 <= j < i ==> !CaseVariants(items[j].key, key))
  {
    hide CaseVariants, Fold;
    forall j | 0 <= j < |items| ensures Fold(items[j].key) == Fold(key) <==> CaseVariants(items[j].key, key) {
      FoldsAreVariants(items[j].key, key);
    }
  }

  // ---- one section

  /** Names stay in their order and spelling, and at most the item is added, behind them. */
  predicate KeysGrow(items: seq<Item>, more: seq<Item>, item: Item) {
    && |items| <= |more| <= |items| + 1 && (|more| > |items| ==> more[|items|] == item)
    && forall j :: 0 <= j < |items| ==> more[j].key == items[j].key
  }

  lemma HasFolded(items: seq<Item>, key: string, value: string)
    ensures HasItem(items, key, value) <==> exists j :: 0 <= j < |items| && Fold(items[j].key) == Fold(key) && items[j].value == value
  {
    hide CaseVariants, Fold;
    forall j | 0 <= j < |items| ensures Fold(items[j].key) == Fold(key) <==> CaseVariants(items[j].key, key) {
      FoldsAreVariants(items[j].key, key);
    }
  }

  lemma PutHolds(items: seq<Item>, item: Item, k: string, v: string)
    requires DistinctKeys(items)
    ensures var put := PutItem(items, item);
            && KeysGrow(items, put, item) && DistinctKeys(put)
            && (HasItem(put, k, v) <==> if CaseVariants(k, item.key) then v == item.value else HasItem(items, k, v))
  {
    hide CaseVariants, Fold, HasItem;
    var put, i := PutItem(items, item), KeyIndex(items, item.key);
    FoldsAreVariants(k, item.key);
    HasFolded(put, k, v);
    HasFolded(items, k, v);
    if Fold(k) == Fold(item.key) {
      assert Fold(put[i].key) == Fold(k) && put[i].value == item.value;
      forall j | 0 <= j < |put| && Fold(put[j].key) == Fold(k) ensures j == i {}
    } else {
      forall j | 0 <= j < |put| && Fold(put[j].key) == Fold(k) ensures j < |items| && put[j] == items[j] {}
      forall j | 0 <= j < |items| && Fold(items[j].key) == Fold(k) ensures put[j] == items[j] {}
    }
  }

  // ---- the document

  /** Sections stay in their order and spelling, at most one is added, behind them, with the item alone;
      and of the others only the one named gets anything, a new key behind the ones it has. */
  predicate SectionsGrow(doc: Doc, more: Doc, name: string, item: Item) {
    && |doc| <= |more| <= |doc| + 1 && (|more| > |doc| ==> more[|doc|] == Part(name, [item]))
    && forall i :: 0 <= i < |doc| ==>
         && more[i].name == doc[i].name && (!CaseVariants(doc[i].name, name) ==> more[i] == doc[i])
         && KeysGrow(doc[i].items, more[i].items, item)
  }

  lemma SectionFolded(doc: Doc, section: string, key: string, value: string)
    ensures Holds(doc, section, key, value)
       <==> exists i :: 0 <= i < |doc| && Fold(doc[i].name) == Fold(section) && HasItem(doc[i].items, key, value)
    ensures HasSection(doc, section) <==> exists i :: 0 <= i < |doc| && Fold(doc[i].name) == Fold(section)
  {
    hide CaseVariants, Fold, HasItem;
    forall i | 0 <= i < |doc| ensures Fold(doc[i].name) == Fold(section) <==> CaseVariants(doc[i].name, section) {
      FoldsAreVariants(doc[i].name, section);
    }
  }

  lemma NothingHeld(key: string, value: string)
    ensures !HasItem([], key, value) && DistinctKeys([])
  {}

  /** A header makes its section known and changes nothing else: a new one comes last. */
  lemma AddSectionHolds(doc: Doc, name: string, s: string, k: string, v: string)
    requires Distinct(doc)
    ensures var d := AddSection(doc, name);
            && Distinct(d) && (d == doc || d == doc + [Part(name, [])]) && (d == doc <==> HasSection(doc, name))
            && (Holds(d, s, k, v) <==> Holds(doc, s, k, v))
            && (HasSection(d, s) <==> HasSection(doc, s) || CaseVariants(s, name))
  {
    hide CaseVariants, Fold, HasItem, DistinctKeys, Holds, HasSection;
    var d := AddSection(doc, name);
    NothingHeld(k, v);
    FoldsAreVariants(s, name);
    SectionFolded(d, s, k, v);
    SectionFolded(doc, s, k, v);
    SectionFolded(doc, name, k, v);
    var n := IndexOf(doc, name);
    if n == |doc| {
      assert d[|doc|] == Part(name, []);
      assert forall i :: 0 <= i < |doc| ==> d[i] == doc[i];
    } else {
      assert Fold(doc[n].name) == Fold(name);
    }
  }

  /** An entry gives its key its value and changes no other one; names stay as they were spelt first. */
  lemma AddItemHolds(doc: Doc, name: string, item: Item, s: string, k: string, v: string)
    requires Distinct(doc)
    ensures var d := AddItem(doc, name, item);
            && Distinct(d) && SectionsGrow(doc, d, name, item) && (|d| == |doc| <==> HasSection(doc, name))
            && (Holds(d, s, k, v)
                <==> if CaseVariants(s, name) && CaseVariants(k, item.key) then v == item.value else Holds(doc, s, k, v))
  {
    hide CaseVariants, Fold, HasItem, DistinctKeys, Holds, HasSection, AddSection, PutItem;
    AddSectionHolds(doc, name, s, k, v);
    var e, d := AddSection(doc, name), AddItem(doc, name, item);
    var n := IndexOf(e, name);
    assert e[n] in e;
    PutHolds(e[n].items, item, k, v);
    FoldsAreVariants(s, name);
    SectionFolded(d, s, k, v);
    SectionFolded(e, s, k, v);
    OthersKept(e, d, n);
    AddedLast(doc, name);
    if e == doc {
      KnownSectionGrows(doc, d, n, name, item);
    } else {
      PutFirst(item);
      NewSectionGrows(doc, d, name, item);
    }
  }

  lemma OthersKept(e: Doc, d: Doc, n: nat)
    requires Distinct(e) && n < |e| == |d| && d == e[n := Part(e[n].name, d[n].items)] && DistinctKeys(d[n].items)
    ensures Distinct(d)
  {
    hide Fold, DistinctKeys;
    forall part | part in d ensures DistinctKeys(part.items) {
      var i :| 0 <= i < |d| && d[i] == part;
      assert i != n ==> d[i] == e[i] && e[i] in e;
    }
  }

  lemma AddedLast(doc: Doc, name: string)
    ensures var e := AddSection(doc, name); e == doc || (e == doc + [Part(name, [])] && IndexOf(e, name) == |doc|)
  {
    if IndexOf(doc, name) == |doc| { IndexOfLast(doc, Part(name, [])); }
  }

  lemma PutFirst(item: Item)
    ensures PutItem([], item) == [item]
  {}

  lemma NewSectionGrows(doc: Doc, d: Doc, name: string, item: Item)
    requires d == doc + [Part(name, [item])]
    ensures SectionsGrow(doc, d, name, item)
  {}

  lemma KnownSectionGrows(doc: Doc, d: Doc, n: nat, name: string, item: Item)
    requires n < |doc| && Fold(doc[n].name) == Fold(name)
    requires |d| == |doc| && d == doc[n := Part(doc[n].name, d[n].items)] && KeysGrow(doc[n].items, d[n].items, item)
    ensures SectionsGrow(doc, d, name, item)
  {
    hide CaseVariants, Fold;
    FoldsAreVariants(doc[n].name, name);
  }

  // ---- whole texts

  /** The value that the last entry for the key among the lines gives it. */
  ghost function LastValue(section: string, lines: seq<Line>, s: string, k: string): Option<string>
    decreases |lines|
  {
    if lines == [] then None else
    var body := lines[0].body;
    var later := LastValue(if body.Header? then body.name else section, lines[1..], s, k);
    if later.None? && (body.Entry? || body.Lines?) && CaseVariants(s, section) && CaseVariants(k, body.key) then Some(body.value)
    else later
  }

  /** A text gives each key its last value, and leaves alone what it does not name. */
  lemma {:induction false} LastValueIsStored(doc: Doc, section: string, lines: seq<Line>, s: string, k: string, v: string)
    requires Distinct(doc)
    ensures var d, last := Stored(doc, section, lines), LastValue(section, lines, s, k);
            && Distinct(d)
            && (Holds(d, s, k, v) <==> if last.Some? then v == last.value else Holds(doc, s, k, v))
    decreases |lines|
  {
    hide CaseVariants, Holds, Distinct, AddItem, AddSection, SectionsGrow, HasSection;
    if lines != [] {
      var body := lines[0].body;
      if body.Header? {
        AddSectionHolds(doc, body.name, s, k, v);
        LastValueIsStored(AddSection(doc, body.name), body.name, lines[1..], s, k, v);
      } else if body.Entry? || body.Lines? {
        var item := Item(body.key, body.value);
        AddItemHolds(doc, section, item, s, k, v);
        LastValueIsStored(AddItem(doc, section, item), section, lines[1..], s, k, v);
      } else {
        LastValueIsStored(doc, section, lines[1..], s, k, v);
      }
    }
  }
}
