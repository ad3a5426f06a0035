/** The loaded data of SimpleIni.h: maps that compare names without regard to case, with the order of
    loading kept as a number, filled by `LoadData` and printed by `Save`. */
module IniStore {
  import opened Wrappers
  import opened IniText
  import opened IniSyntax
  import opened IniBuffer
  import opened IniRoundTrip

  datatype KeyEntry = KeyEntry(name: string, order: nat, value: string)
  datatype SectionEntry = SectionEntry(name: string, order: nat, keys: map<string, KeyEntry>)

  // ---- the document the maps stand for

  /** The keys under their folded names, with rising numbers in the order of `items`. */
  ghost predicate ListsKeys(keys: map<string, KeyEntry>, items: seq<Item>, order: nat) {
    && (forall f :: f in keys ==> Fold(keys[f].name) == f && KeyIndex(items, keys[f].name) < |items|)
    && (forall i :: 0 <= i < |items| ==> KeyListed(keys, items[i], order))
    && (forall i, j :: 0 <= i < j < |items| ==> keys[Fold(items[i].key)].order < keys[Fold(items[j].key)].order)
  }

  ghost predicate KeyListed(keys: map<string, KeyEntry>, item: Item, order: nat) {
    var f := Fold(item.key);
    f in keys && keys[f].name == item.key && keys[f].value == item.value && keys[f].order <= order
  }

  ghost predicate Lists(data: map<string, SectionEntry>, doc: Doc, order: nat) {
    NamesFound(data, doc) && EachListed(data, doc, order) && OrdersRise(data, doc)
  }

  ghost predicate NamesFound(data: map<string, SectionEntry>, doc: Doc) {
    forall f :: f in data ==> Fold(data[f].name) == f && IndexOf(doc, data[f].name) < |doc|
  }

  ghost predicate EachListed(data: map<string, SectionEntry>, doc: Doc, order: nat) {
    forall i :: 0 <= i < |doc| ==> SectionListed(data, doc[i], order)
  }

  ghost predicate OrdersRise(data: map<string, SectionEntry>, doc: Doc) {
    && (forall i :: 0 <= i < |doc| ==> Fold(doc[i].name) in data)
    && forall i, j :: 0 <= i < j < |doc| ==> data[Fold(doc[i].name)].order < data[Fold(doc[j].name)].order
  }

  ghost predicate SectionListed(data: map<string, SectionEntry>, part: Part, order: nat) {
    var f := Fold(part.name);
    f in data && data[f].name == part.name && data[f].order <= order && ListsKeys(data[f].keys, part.items, order)
  }

  /** A name is known to the map exactly when it is in the document. */
  lemma KnownSection(data: map<string, SectionEntry>, doc: Doc, order: nat, name: string)
    requires Lists(data, doc, order)
    ensures Fold(name) in data <==> IndexOf(doc, name) < |doc|
    ensures IndexOf(doc, name) < |doc| ==> SectionListed(data, doc[IndexOf(doc, name)], order)
  {
    var i := IndexOf(doc, name);
    if i < |doc| {
      assert SectionListed(data, doc[i], order);
    }
    if Fold(name) in data {
      var j := IndexOf(doc, data[Fold(name)].name);
      assert Fold(doc[j].name) == Fold(name);
    }
  }

  lemma KnownKey(keys: map<string, KeyEntry>, items: seq<Item>, order: nat, key: string)
    requires ListsKeys(keys, items, order)
    ensures Fold(key) in keys <==> KeyIndex(items, key) < |items|
  {
    var i := KeyIndex(items, key);
    if i < |items| {
      assert KeyListed(keys, items[i], order);
    }
    if Fold(key) in keys {
      var j := KeyIndex(items, keys[Fold(key)].name);
      assert Fold(items[j].key) == Fold(key);
    }
  }

  lemma KeysLater(keys: map<string, KeyEntry>, items: seq<Item>, order: nat, later: nat)
    requires ListsKeys(keys, items, order) && order <= later
    ensures ListsKeys(keys, items, later)
  {
    forall i | 0 <= i < |items| ensures KeyListed(keys, items[i], later) { assert KeyListed(keys, items[i], order); }
  }

  ghost predicate InOrder(data: map<string, SectionEntry>, data': map<string, SectionEntry>, part: Part, order: nat) {
    var f := Fold(part.name);
    f in data && f in data' && data'[f].order == data[f].order <= order
  }

  /** Changing one section leaves the others listed. */
  lemma StillListed(data: map<string, SectionEntry>, data': map<string, SectionEntry>, f: string, part: Part, order: nat, later: nat)
    requires SectionListed(data, part, order) && Fold(part.name) != f && f in data' && data' == data[f := data'[f]] && order <= later
    ensures SectionListed(data', part, later) && InOrder(data, data', part, order)
  {
    KeysLater(data[Fold(part.name)].keys, part.items, order, later);
  }

  lemma NewSectionListed(data: map<string, SectionEntry>, name: string, order: nat)
    requires Fold(name) in data && data[Fold(name)] == SectionEntry(name, order, map[])
    ensures SectionListed(data, Part(name, []), order)
  {}

  lemma NotNamed(doc: Doc, name: string, i: nat)
    requires IndexOf(doc, name) == |doc| && i < |doc|
    ensures Fold(doc[i].name) != Fold(name)
  {}

  lemma IndexGrows(doc: Doc, part: Part, name: string)
    requires IndexOf(doc, name) < |doc| || Fold(part.name) == Fold(name)
    ensures IndexOf(doc + [part], name) < |doc + [part]|
  {
    var d, i := doc + [part], IndexOf(doc, name);
    assert i < |doc| ==> d[i] == doc[i];
    assert d[|doc|] == part;
  }

  /** A section numbered higher than all others comes last. */
  lemma SectionAdded(data: map<string, SectionEntry>, doc: Doc, order: nat, name: string)
    requires Lists(data, doc, order) && Fold(name) !in data
    ensures Lists(data[Fold(name) := SectionEntry(name, order + 1, map[])], AddSection(doc, name), order + 1)
  {
    hide Fold, IndexOf, NamesFound, EachListed, OrdersRise;
    KnownSection(data, doc, order, name);
    var added, data' := Part(name, []), data[Fold(name) := SectionEntry(name, order + 1, map[])];
    assert AddSection(doc, name) == doc + [added];
    EachStillListed(data, doc, order, name, data');
    OrdersStillRise(data, doc, order, data', added);
    NamesStillFound(data, doc, name, data', added);
  }

  lemma EachStillListed(data: map<string, SectionEntry>, doc: Doc, order: nat, name: string, data': map<string, SectionEntry>)
    requires EachListed(data, doc, order) && IndexOf(doc, name) == |doc|
    requires data' == data[Fold(name) := SectionEntry(name, order + 1, map[])]
    ensures EachListed(data', doc + [Part(name, [])], order + 1)
    ensures forall i :: 0 <= i < |doc| ==> InOrder(data, data', doc[i], order)
  {
    hide SectionListed, Fold, IndexOf;
    forall i | 0 <= i < |doc| ensures SectionListed(data', doc[i], order + 1) && InOrder(data, data', doc[i], order) {
      NotNamed(doc, name, i);
      StillListed(data, data', Fold(name), doc[i], order, order + 1);
    }
    NewSectionListed(data', name, order + 1);
  }

  lemma OrdersStillRise(data: map<string, SectionEntry>, doc: Doc, order: nat, data': map<string, SectionEntry>, added: Part)
    requires OrdersRise(data, doc) && forall i :: 0 <= i < |doc| ==> InOrder(data, data', doc[i], order)
    requires Fold(added.name) in data' && data'[Fold(added.name)].order > order
    ensures OrdersRise(data', doc + [added])
  {
    hide Fold;
    var d := doc + [added];
    forall i, j | 0 <= i < j < |d|
      ensures Fold(d[i].name) in data' && Fold(d[j].name) in data' && data'[Fold(d[i].name)].order < data'[Fold(d[j].name)].order
    {
      assert InOrder(data, data', doc[i], order);
      assert j < |doc| ==> InOrder(data, data', doc[j], order);
    }
    forall i | 0 <= i < |d| ensures Fold(d[i].name) in data' {
      assert i < |doc| ==> InOrder(data, data', doc[i], order);
    }
  }

  lemma NamesStillFound(data: map<string, SectionEntry>, doc: Doc, name: string, data': map<string, SectionEntry>, added: Part)
    requires NamesFound(data, doc) && added.name == name
    requires Fold(name) in data' && data'[Fold(name)].name == name && data' == data[Fold(name) := data'[Fold(name)]]
    ensures NamesFound(data', doc + [added])
  {
    hide Fold, IndexOf;
    forall f | f in data' ensures Fold(data'[f].name) == f && IndexOf(doc + [added], data'[f].name) < |doc + [added]| {
      IndexGrows(doc, added, data'[f].name);
    }
  }

  /** Changing the keys of one section leaves its place alone. */
  lemma SectionChanged(
    data: map<string, SectionEntry>, doc: Doc, order: nat, name: string, keys: map<string, KeyEntry>, items: seq<Item>, later: nat)
    requires Lists(data, doc, order) && Fold(name) in data && IndexOf(doc, name) < |doc|
    requires ListsKeys(keys, items, later) && order <= later
    ensures var f, i := Fold(name), IndexOf(doc, name);
            Lists(data[f := data[f].(keys := keys)], doc[i := Part(doc[i].name, items)], later)
  {
    hide ListsKeys, Fold, IndexOf, NamesFound, EachListed, OrdersRise;
    var f, k := Fold(name), IndexOf(doc, name);
    var data', d := data[f := data[f].(keys := keys)], doc[k := Part(doc[k].name, items)];
    EachChanged(data, doc, order, name, keys, items, later);
    OrdersUnchanged(data, doc, order, data', d);
    NamesUnchanged(data, doc, f, data', d);
  }

  lemma OrdersUnchanged(data: map<string, SectionEntry>, doc: Doc, order: nat, data': map<string, SectionEntry>, d: Doc)
    requires OrdersRise(data, doc) && |d| == |doc| && forall i :: 0 <= i < |doc| ==> d[i].name == doc[i].name
    requires forall i :: 0 <= i < |doc| ==> InOrder(data, data', doc[i], order)
    ensures OrdersRise(data', d)
  {
    hide Fold;
    forall i | 0 <= i < |d| ensures Fold(d[i].name) in data' { assert InOrder(data, data', doc[i], order); }
    forall i, j | 0 <= i < j < |d| ensures data'[Fold(d[i].name)].order < data'[Fold(d[j].name)].order {
      assert InOrder(data, data', doc[i], order) && InOrder(data, data', doc[j], order);
    }
  }

  lemma NamesUnchanged(data: map<string, SectionEntry>, doc: Doc, f: string, data': map<string, SectionEntry>, d: Doc)
    requires NamesFound(data, doc) && |d| == |doc| && forall i :: 0 <= i < |doc| ==> d[i].name == doc[i].name
    requires f in data && f in data' && data'[f].name == data[f].name && data' == data[f := data'[f]]
    ensures NamesFound(data', d)
  {
    hide Fold, IndexOf;
    forall g | g in data' ensures Fold(data'[g].name) == g && IndexOf(d, data'[g].name) < |d| {
      assert g in data && data'[g].name == data[g].name;
      SameNames(doc, d, data[g].name);
    }
  }

  lemma EachChanged(
    data: map<string, SectionEntry>, doc: Doc, order: nat, name: string, keys: map<string, KeyEntry>, items: seq<Item>, later: nat)
    requires Lists(data, doc, order) && Fold(name) in data && IndexOf(doc, name) < |doc|
    requires ListsKeys(keys, items, later) && order <= later
    ensures var f, i := Fold(name), IndexOf(doc, name);
            var data' := data[f := data[f].(keys := keys)];
            && EachListed(data', doc[i := Part(doc[i].name, items)], later)
            && forall i :: 0 <= i < |doc| ==> InOrder(data, data', doc[i], order)
  {
    hide ListsKeys, Fold, IndexOf, NamesFound, OrdersRise;
    var f, k := Fold(name), IndexOf(doc, name);
    var data', d := data[f := data[f].(keys := keys)], doc[k := Part(doc[k].name, items)];
    forall i | 0 <= i < |d| ensures SectionListed(data', d[i], later) && InOrder(data, data', doc[i], order) {
      assert SectionListed(data, doc[i], order);
      if i != k {
        OnlyOneNamed(data, doc, order, i, k);
        StillListed(data, data', f, doc[i], order, later);
      }
    }
  }

  lemma OnlyOneNamed(data: map<string, SectionEntry>, doc: Doc, order: nat, i: nat, j: nat)
    requires Lists(data, doc, order) && i < |doc| && j < |doc| && i != j
    ensures Fold(doc[i].name) != Fold(doc[j].name)
  {
    if i < j {
      assert data[Fold(doc[i].name)].order < data[Fold(doc[j].name)].order;
    } else {
      assert data[Fold(doc[j].name)].order < data[Fold(doc[i].name)].order;
    }
  }

  lemma SameNames(doc: Doc, d: Doc, name: string)
    requires |d| == |doc| && forall i :: 0 <= i < |doc| ==> d[i].name == doc[i].name
    ensures IndexOf(d, name) == IndexOf(doc, name)
  {}

  // ---- the same for keys

  ghost predicate KeyInOrder(keys: map<string, KeyEntry>, keys': map<string, KeyEntry>, item: Item, order: nat) {
    var f := Fold(item.key);
    f in keys && f in keys' && keys'[f].order == keys[f].order <= order
  }

  lemma KeyStillListed(keys: map<string, KeyEntry>, keys': map<string, KeyEntry>, f: string, item: Item, order: nat, later: nat)
    requires KeyListed(keys, item, order) && Fold(item.key) != f && f in keys' && keys' == keys[f := keys'[f]] && order <= later
    ensures KeyListed(keys', item, later) && KeyInOrder(keys, keys', item, order)
  {}

  lemma NoKeyNamed(items: seq<Item>, key: string, i: nat)
    requires KeyIndex(items, key) == |items| && i < |items|
    ensures Fold(items[i].key) != Fold(key)
  {}

  lemma KeyIndexGrows(items: seq<Item>, item: Item, key: string)
    requires KeyIndex(items, key) < |items| || Fold(item.key) == Fold(key)
    ensures KeyIndex(items + [item], key) < |items + [item]|
  {
    var put, i := items + [item], KeyIndex(items, key);
    assert i < |items| ==> put[i] == items[i];
    assert put[|items|] == item;
  }

  lemma NewKeyListed(keys: map<string, KeyEntry>, item: Item, order: nat)
    requires Fold(item.key) in keys && keys[Fold(item.key)] == KeyEntry(item.key, order, item.value)
    ensures KeyListed(keys, item, order)
  {}

  lemma KeyAdded(keys: map<string, KeyEntry>, items: seq<Item>, order: nat, item: Item)
    requires ListsKeys(keys, items, order) && Fold(item.key) !in keys
    ensures ListsKeys(keys[Fold(item.key) := KeyEntry(item.key, order + 1, item.value)], PutItem(items, item), order + 1)
  {
    hide KeyListed, Fold, KeyIndex;
    KnownKey(keys, items, order, item.key);
    var put, later := items + [item], order + 1;
    var keys' := keys[Fold(item.key) := KeyEntry(item.key, later, item.value)];
    assert PutItem(items, item) == put;
    forall i | 0 <= i < |items| ensures KeyListed(keys', items[i], later) && KeyInOrder(keys, keys', items[i], order) {
      NoKeyNamed(items, item.key, i);
      KeyStillListed(keys, keys', Fold(item.key), items[i], order, later);
    }
    NewKeyListed(keys', item, later);
    forall i, j | 0 <= i < j < |put| ensures keys'[Fold(put[i].key)].order < keys'[Fold(put[j].key)].order {
      assert KeyInOrder(keys, keys', items[i], order);
      assert j < |items| ==> KeyInOrder(keys, keys', items[j], order);
    }
    forall f | f in keys' ensures Fold(keys'[f].name) == f && KeyIndex(put, keys'[f].name) < |put| {
      KeyIndexGrows(items, item, keys'[f].name);
    }
  }

  lemma KeyUpdated(keys: map<string, KeyEntry>, items: seq<Item>, order: nat, item: Item)
    requires ListsKeys(keys, items, order) && Fold(item.key) in keys
    ensures var f := Fold(item.key);
            ListsKeys(keys[f := keys[f].(value := item.value)], PutItem(items, item), order)
  {
    hide Fold, KeyIndex;
    KnownKey(keys, items, order, item.key);
    var f, k := Fold(item.key), KeyIndex(items, item.key);
    var keys', put := keys[f := keys[f].(value := item.value)], items[k := Item(items[k].key, item.value)];
    assert PutItem(items, item) == put;
    forall i | 0 <= i < |put| ensures KeyListed(keys', put[i], order) && KeyInOrder(keys, keys', items[i], order) {
      assert KeyListed(keys, items[i], order);
      if i != k {
        OnlyOneKey(keys, items, order, i, k);
        KeyStillListed(keys, keys', f, items[i], order, order);
      }
    }
    forall i, j | 0 <= i < j < |put| ensures keys'[Fold(put[i].key)].order < keys'[Fold(put[j].key)].order {
      assert KeyInOrder(keys, keys', items[i], order) && KeyInOrder(keys, keys', items[j], order);
    }
    KeyNamesUnchanged(keys, items, f, keys', put);
  }

  lemma KeyNamesUnchanged(keys: map<string, KeyEntry>, items: seq<Item>, f: string, keys': map<string, KeyEntry>, put: seq<Item>)
    requires forall g :: g in keys ==> Fold(keys[g].name) == g && KeyIndex(items, keys[g].name) < |items|
    requires |put| == |items| && forall i :: 0 <= i < |items| ==> put[i].key == items[i].key
    requires f in keys && f in keys' && keys'[f].name == keys[f].name && keys' == keys[f := keys'[f]]
    ensures forall g :: g in keys' ==> Fold(keys'[g].name) == g && KeyIndex(put, keys'[g].name) < |put|
  {
    hide Fold, KeyIndex;
    forall g | g in keys' ensures g in keys && keys'[g].name == keys[g].name {}
    forall g | g in keys' ensures Fold(keys'[g].name) == g && KeyIndex(put, keys'[g].name) < |put| {
      SameKeys(items, put, keys[g].name);
    }
  }

  lemma OnlyOneKey(keys: map<string, KeyEntry>, items: seq<Item>, order: nat, i: nat, j: nat)
    requires ListsKeys(keys, items, order) && i < |items| && j < |items| && i != j
    ensures Fold(items[i].key) != Fold(items[j].key)
  {
    if i < j {
      assert keys[Fold(items[i].key)].order < keys[Fold(items[j].key)].order;
    } else {
      assert keys[Fold(items[j].key)].order < keys[Fold(items[i].key)].order;
    }
  }

  lemma SameKeys(items: seq<Item>, put: seq<Item>, key: string)
    requires |put| == |items| && forall i :: 0 <= i < |items| ==> put[i].key == items[i].key
    ensures KeyIndex(put, key) == KeyIndex(items, key)
  {}

  // ---- sorting by load order

  ghost predicate Rising(names: seq<string>, orders: map<string, nat>) {
    && (forall f :: f in names ==> f in orders)
    && (forall i, j :: 0 <= i < j < |names| ==> orders[names[i]] < orders[names[j]])
  }

  /** Two rising lists of the same names are the same list. */
  lemma {:induction false} RisingIsUnique(a: seq<string>, b: seq<string>, orders: map<string, nat>)
    requires Rising(a, orders) && Rising(b, orders) && forall f :: f in a <==> f in b
    ensures a == b
  {
    if a != [] && b != [] {
      assert a[0] in b && b[0] in a;
      assert a[0] == b[0];
      assert a == [a[0]] + a[1..] && b == [b[0]] + b[1..];
      forall f ensures f in a[1..] <==> f in b[1..] { assert f in a <==> f in b; }
      RisingIsUnique(a[1..], b[1..], orders);
    } else {
      var f := if a != [] then a[0] else if b != [] then b[0] else "";
      assert (f in a <==> a != []) || (f in b <==> b != []);
    }
  }

  /** The names sorted by their numbers. */
  method SortByOrder(orders: map<string, nat>) returns (names: seq<string>)
    requires forall f, g :: f in orders && g in orders && orders[f] == orders[g] ==> f == g
    ensures Rising(names, orders) && forall f :: f in names <==> f in orders
  {
    names := [];
    var rest := orders.Keys;
    while rest != {}
      invariant Rising(names, orders) && rest <= orders.Keys && forall f :: f in names <==> f in orders && f !in rest
      decreases |rest|
    {
      var f :| f in rest;
      var i: nat := |names|;
      while i > 0 && orders[names[i - 1]] > orders[f]
        invariant i <= |names| && forall j :: i <= j < |names| ==> orders[f] < orders[names[j]]
      {
        i := i - 1;
      }
      Inserted(names, i, f, orders);
      names := names[..i] + [f] + names[i..];
      rest := rest - {f};
    }
  }

  lemma Inserted(names: seq<string>, i: nat, f: string, orders: map<string, nat>)
    requires Rising(names, orders) && f in orders && f !in names && i <= |names|
    requires forall g :: g in names && orders[g] == orders[f] ==> g == f
    requires (i > 0 ==> orders[names[i - 1]] <= orders[f]) && forall j :: i <= j < |names| ==> orders[f] < orders[names[j]]
    ensures var after := names[..i] + [f] + names[i..];
            Rising(after, orders) && forall g :: g in after <==> g in names || g == f
  {
    var after := names[..i] + [f] + names[i..];
    forall j | 0 <= j < i ensures orders[names[j]] < orders[f] {
      assert names[i - 1] in names && orders[names[j]] <= orders[names[i - 1]];
    }
    InsertedNames(names, i, f);
    InsertedRises(names, i, f, after, orders);
  }

  lemma InsertedNames(names: seq<string>, i: nat, f: string)
    requires i <= |names|
    ensures forall g :: g in names[..i] + [f] + names[i..] <==> g in names || g == f
  {
    assert names == names[..i] + names[i..];
  }

  lemma InsertedRises(names: seq<string>, i: nat, f: string, after: seq<string>, orders: map<string, nat>)
    requires Rising(names, orders) && f in orders && i <= |names| && after == names[..i] + [f] + names[i..]
    requires forall g :: g in after ==> g in orders
    requires forall j :: 0 <= j < i ==> orders[names[j]] < orders[f]
    requires forall j :: i <= j < |names| ==> orders[f] < orders[names[j]]
    ensures Rising(after, orders)
  {
    forall j, k | 0 <= j < k < |after| ensures orders[after[j]] < orders[after[k]] {
      var x, y := if j < i then names[j] else if j == i then f else names[j - 1],
                  if k < i then names[k] else if k == i then f else names[k - 1];
      assert after[j] == x && after[k] == y;
      assert orders[x] < orders[y];
    }
  }

  // ---- printing

  /** `IsMultiLineData`. */
  method IsMultiLineData(v: string) returns (needed: bool)
    ensures needed <==> NeedsMultiLine(v)
  {
    if v == "" {
      return false;
    }
    if IsSpace(v[0]) {
      return true;
    }
    var i := 0;
    while i < |v|
      invariant i <= |v| && forall j :: 0 <= j < i ==> !IsNewLine(v[j])
    {
      if IsNewLine(v[i]) {
        assert v[i] in v;
        return true;
      }
      i := i + 1;
    }
    return IsSpace(v[i - 1]);
  }

  /** `OutputMultiLineText`: each line is followed by a newline, the last one too. */
  method OutputMultiLineText(v: string) returns (out: string)
    ensures out == if v == "" then "" else v + "\n"
  {
    out := "";
    var start, more := 0, v != "";
    while more
      invariant start <= |v| + 1 && (more ==> start <= |v| && out == v[..start])
      invariant !more ==> out == if v == "" then "" else v + "\n"
      decreases |v| + 1 - start, more
    {
      var end := start;
      while end < |v| && v[end] != '\n'
        invariant start <= end <= |v|
      {
        end := end + 1;
      }
      more := end < |v|;
      out := out + v[start..end] + "\n";
      assert v[..end] == v[..start] + v[start..end];
      assert more ==> v[..end + 1] == v[..end] + "\n";
      assert v[..|v|] == v;
      start := end + 1;
    }
  }

  /** A key, the equals sign and the value. */
  method SaveItem(cfg: Config, item: Item) returns (out: string)
    ensures out == PrintItem(cfg, item)
  {
    out := item.key + EqualsSign(cfg);
    var needed := IsMultiLineData(item.value);
    if cfg.multiLine && needed {
      var text := OutputMultiLineText(item.value);
      out := out + "<<<" + END_OF_TEXT + "\n" + text + END_OF_TEXT + "\n";
      Regroup(item.key + EqualsSign(cfg), item.value, END_OF_TEXT);
    } else {
      out := out + item.value + "\n";
    }
  }

  lemma Regroup(start: string, v: string, tag: string)
    ensures start + "<<<" + tag + "\n" + (v + "\n") + tag + "\n" == start + ("<<<" + tag + "\n" + v + "\n" + tag) + "\n"
  {}

  /** The folded keys, in load order. */
  ghost function KeyNames(items: seq<Item>): (names: seq<string>)
    ensures |names| == |items| && forall i :: 0 <= i < |items| ==> names[i] == Fold(items[i].key)
  {
    seq(|items|, i requires 0 <= i < |items| => Fold(items[i].key))
  }

  ghost function SectionNames(doc: Doc): (names: seq<string>)
    ensures |names| == |doc| && forall i :: 0 <= i < |doc| ==> names[i] == Fold(doc[i].name)
  {
    seq(|doc|, i requires 0 <= i < |doc| => Fold(doc[i].name))
  }

  lemma KeysRise(keys: map<string, KeyEntry>, items: seq<Item>, order: nat, orders: map<string, nat>)
    requires ListsKeys(keys, items, order) && orders == map f | f in keys :: keys[f].order
    ensures Rising(KeyNames(items), orders) && (forall f :: f in KeyNames(items) <==> f in orders)
    ensures forall f, g :: f in orders && g in orders && orders[f] == orders[g] ==> f == g
  {
    var names := KeyNames(items);
    forall i | 0 <= i < |items| ensures names[i] in orders { assert KeyListed(keys, items[i], order); }
    forall f | f in orders ensures f in names {
      var i := KeyIndex(items, keys[f].name);
      assert names[i] == f;
    }
    RisingIsInjective(names, orders);
  }

  lemma SectionsRise(data: map<string, SectionEntry>, doc: Doc, order: nat, orders: map<string, nat>)
    requires Lists(data, doc, order) && orders == map f | f in data :: data[f].order
    ensures Rising(SectionNames(doc), orders) && (forall f :: f in SectionNames(doc) <==> f in orders)
    ensures forall f, g :: f in orders && g in orders && orders[f] == orders[g] ==> f == g
  {
    var names := SectionNames(doc);
    forall i | 0 <= i < |doc| ensures names[i] in orders { assert SectionListed(data, doc[i], order); }
    forall f | f in orders ensures f in names {
      var i := IndexOf(doc, data[f].name);
      assert names[i] == f;
    }
    RisingIsInjective(names, orders);
  }

  lemma RisingIsInjective(names: seq<string>, orders: map<string, nat>)
    requires Rising(names, orders) && forall f :: f in orders ==> f in names
    ensures forall f, g :: f in orders && g in orders && orders[f] == orders[g] ==> f == g
  {
    forall f, g | f in orders && g in orders && orders[f] == orders[g] ensures f == g {
      assert f in names && g in names;
      var i :| 0 <= i < |names| && names[i] == f;
      var j :| 0 <= j < |names| && names[j] == g;
    }
  }

  /** The keys of a section in load order. */
  method KeysInOrder(keys: map<string, KeyEntry>, ghost items: seq<Item>, ghost order: nat) returns (names: seq<string>)
    requires ListsKeys(keys, items, order)
    ensures names == KeyNames(items)
  {
    hide ListsKeys, KeyNames, Rising;
    var orders := map f | f in keys :: keys[f].order;
    KeysRise(keys, items, order, orders);
    names := SortByOrder(orders);
    RisingIsUnique(names, KeyNames(items), orders);
  }

  lemma PrintItemsStep(cfg: Config, items: seq<Item>, i: nat, out: string, line: string)
    requires i < |items| && line == PrintItem(cfg, items[i])
    ensures out + PrintItems(cfg, items[i..]) == out + line + PrintItems(cfg, items[i + 1..])
  {
    hide PrintItem;
    assert items[i..][1..] == items[i + 1..];
  }

  /** A section's keys and values. */
  method SaveItems(cfg: Config, keys: map<string, KeyEntry>, ghost items: seq<Item>, ghost order: nat) returns (out: string)
    requires ListsKeys(keys, items, order)
    ensures out == PrintItems(cfg, items)
  {
    hide PrintItem, PrintItems, KeyIndex, Fold;
    var names := KeysInOrder(keys, items, order);
    out := "";
    var i := 0;
    assert items[0..] == items;
    assert out + PrintItems(cfg, items) == PrintItems(cfg, items);
    while i < |names|
      invariant i <= |items| && out + PrintItems(cfg, items[i..]) == PrintItems(cfg, items)
    {
      assert KeyListed(keys, items[i], order);
      var line := SaveItem(cfg, Item(keys[names[i]].name, keys[names[i]].value));
      PrintItemsStep(cfg, items, i, out, line);
      out := out + line;
      i := i + 1;
    }
    NothingLeft(cfg, items[i..], out);
  }

  lemma NothingLeft(cfg: Config, items: seq<Item>, out: string)
    requires items == []
    ensures out + PrintItems(cfg, items) == out
  {}

  // ---- the store

  /** `CSimpleIniTempl` without multiple keys and comments. */
  class Store {
    const cfg: Config
    var data: map<string, SectionEntry>
    var order: nat
    ghost var doc: Doc

    ghost predicate Valid()
      reads this
    {
      Lists(data, doc, order)
    }

    constructor (cfg: Config)
      ensures Valid() && doc == [] && this.cfg == cfg
    {
      this.cfg := cfg;
      data, order, doc := map[], 0, [];
    }

    /** `AddEntry`: a section alone, or a key with its value in it. */
    method AddEntry(section: string, item: Option<Item>) returns (inserted: bool)
      requires Valid()
      modifies this
      ensures Valid()
      ensures doc == match item
                     case None => AddSection(old(doc), section)
                     case Some(it) => AddItem(old(doc), section, it)
      ensures inserted <==>
              var i := IndexOf(old(doc), section);
              i == |old(doc)| || (item.Some? && KeyIndex(old(doc)[i].items, item.value.key) == |old(doc)[i].items|)
    {
      hide Lists, ListsKeys, Fold, IndexOf, KeyIndex, PutItem;
      inserted := false;
      var f := Fold(section);
      KnownSection(data, doc, order, section);
      ghost var i0 := IndexOf(doc, section);
      if f !in data {
        SectionAdded(data, doc, order, section);
        order := order + 1;
        data := data[f := SectionEntry(section, order, map[])];
        inserted := true;
      }
      doc := AddSection(doc, section);
      if item.None? {
        return;
      }
      var it := item.value;
      ghost var i := IndexOf(doc, section);
      KnownSection(data, doc, order, section);
      ghost var items := doc[i].items;
      var keys := data[f].keys;
      KeysOf(data, doc, order, section);
      KnownKey(keys, items, order, it.key);
      var k := Fold(it.key);
      inserted := k !in keys;
      ghost var before := order;
      order := order + 1;
      if k !in keys {
        KeyAdded(keys, items, before, it);
        keys := keys[k := KeyEntry(it.key, order, it.value)];
      } else {
        KeyUpdated(keys, items, before, it);
        keys := keys[k := keys[k].(value := it.value)];
        KeysLater(keys, PutItem(items, it), before, order);
      }
      SectionChanged(data, doc, before, section, keys, PutItem(items, it), order);
      data := data[f := data[f].(keys := keys)];
      doc := doc[i := Part(doc[i].name, PutItem(items, it))];
    }

    /** `LoadData`: every entry of the text is added. */
    method LoadData(text: string)
      requires Valid()
      modifies this
      ensures Valid() && doc == Load(cfg, old(doc), CString(text))
    {
      hide Find, Lists, IndexOf, AddItem, AddSection, CString, Holds, Same;
      var raw := if SIGNATURE <= text then text[3..] else text;
      ghost var s := CString(raw);
      SignatureFirst(text);
      var buf := new char[|raw| + 1](i => if 0 <= i < |raw| then raw[i] else NUL);
      BufferHolds(buf[..], raw);
      ghost var section, rest := "", s;
      var pSection: Option<nat>, p: nat, found := None, 0, true;
      while found
        invariant Valid() && Holds(buf[..], p, rest) && SectionAt(buf[..], pSection, section, p)
        invariant if found then Parse(cfg, doc, section, rest) == Parse(cfg, old(doc), "", s)
                  else doc == Parse(cfg, old(doc), "", s)
        decreases |rest|, found
      {
        var pKey: Option<nat>, value: nat;
        ghost var f := Find(cfg, Ended(section), rest);
        found, pSection, pKey, value, p := FindEntry(buf, cfg, pSection, p, section, rest);
        if !found {
          break;
        }
        section := if f.SectionFound? then f.name else f.section;
        var added := None;
        if pKey.Some? {
          var key := StringAt(buf, pKey.value, f.item.key);
          var text := StringAt(buf, value, f.item.value);
          added := Some(Item(key, text));
        }
        var current := "";
        if pSection.Some? {
          current := StringAt(buf, pSection.value, section);
        }
        var inserted := AddEntry(current, added);
        rest := f.rest;
      }
    }

    /** Where the section without a name is. */
    method FindUnnamed(names: seq<string>) returns (at: nat)
      requires Valid() && NamesListed(data, doc, order, names)
      ensures at == IndexOf(doc, "")
    {
      hide Lists, ListsKeys, IndexOf, Fold;
      at := 0;
      while at < |names| && data[names[at]].name != ""
        invariant at <= |doc| && forall j :: 0 <= j < at ==> doc[j].name != ""
      {
        at := at + 1;
      }
      UnnamedAt(data, doc, order, at);
    }

    /** The sections in load order, the one without a name first. */
    method SectionsInOrder() returns (names: seq<string>)
      requires Valid()
      ensures NamesListed(data, EmptyFirst(doc), order, names)
    {
      hide IndexOf, Fold, ListsKeys, SectionNames, Rising, NamesListed;
      var orders := map f | f in data :: data[f].order;
      SectionsRise(data, doc, order, orders);
      names := SortByOrder(orders);
      RisingIsUnique(names, SectionNames(doc), orders);
      AllListed(data, doc, order);
      var at := FindUnnamed(names);
      SameLength(data, doc, order, names);
      if at < |names| {
        MovedListed(data, doc, order, names, at);
        names := [names[at]] + names[..at] + names[at + 1..];
      }
    }

    /** `Save`. */
    method Save(addSignature: bool) returns (out: string)
      requires Valid()
      ensures out == (if addSignature then SIGNATURE else "") + Print(cfg, doc)
    {
      hide EmptyFirst, PrintItems, PrintHeader, PrintParts, ListsKeys, Lists;
      out := if addSignature then SIGNATURE else "";
      var names := SectionsInOrder();
      ghost var d, start := EmptyFirst(doc), out;
      assert d[0..] == d;
      var i, needNewLine := 0, false;
      while i < |names|
        invariant i <= |d| && out + PrintParts(cfg, d[i..], needNewLine) == start + Print(cfg, doc)
      {
        assert SectionListed(data, d[i], order);
        var section := data[names[i]];
        var items := SaveItems(cfg, section.keys, d[i].items, order);
        PrintStep(cfg, d, i, needNewLine, out);
        out := out + (if needNewLine then "\n\n" else "") + PrintHeader(section.name) + items;
        needNewLine := true;
        i := i + 1;
      }
      NoPartsLeft(cfg, d[i..], needNewLine, out);
    }
  }

  // ---- what the methods of the store rest on

  lemma NoPartsLeft(cfg: Config, d: Doc, needNewLine: bool, out: string)
    requires d == []
    ensures out + PrintParts(cfg, d, needNewLine) == out
  {}

  /** The search for the section without a name finds the one the document has. */
  lemma UnnamedAt(data: map<string, SectionEntry>, doc: Doc, order: nat, k: nat)
    requires Lists(data, doc, order) && k <= |doc| && (forall j :: 0 <= j < k ==> doc[j].name != "")
    requires k < |doc| ==> doc[k].name == ""
    ensures IndexOf(doc, "") == k
  {
    forall name: string ensures Fold(name) == Fold("") <==> name == "" {}
  }

  ghost predicate NamesListed(data: map<string, SectionEntry>, doc: Doc, order: nat, names: seq<string>) {
    |names| == |doc| && forall i :: 0 <= i < |doc| ==> names[i] == Fold(doc[i].name) && SectionListed(data, doc[i], order)
  }

  lemma SameLength(data: map<string, SectionEntry>, doc: Doc, order: nat, names: seq<string>)
    requires NamesListed(data, doc, order, names)
    ensures |names| == |doc|
  {}

  lemma AllListed(data: map<string, SectionEntry>, doc: Doc, order: nat)
    requires Lists(data, doc, order)
    ensures NamesListed(data, doc, order, SectionNames(doc))
  {}

  lemma MovedListed(data: map<string, SectionEntry>, doc: Doc, order: nat, names: seq<string>, k: nat)
    requires NamesListed(data, doc, order, names) && k < |doc|
    ensures NamesListed(data, [doc[k]] + doc[..k] + doc[k + 1..], order, [names[k]] + names[..k] + names[k + 1..])
  {
    hide SectionListed, Fold;
    Moved(names, k);
    Moved(doc, k);
  }

  /** Moving element `k` to the front, position by position. */
  lemma Moved<T>(s: seq<T>, k: nat)
    requires k < |s|
    ensures var m := [s[k]] + s[..k] + s[k + 1..];
            |m| == |s| && forall i :: 0 <= i < |s| ==> m[i] == s[if i == 0 then k else if i <= k then i - 1 else i]
  {}

  lemma PrintStep(cfg: Config, d: Doc, i: nat, needNewLine: bool, out: string)
    requires i < |d|
    ensures out + PrintParts(cfg, d[i..], needNewLine)
         == out + (if needNewLine then "\n\n" else "") + PrintHeader(d[i].name) + PrintItems(cfg, d[i].items)
            + PrintParts(cfg, d[i + 1..], true)
  {
    hide PrintItems, PrintHeader;
    assert d[i..][1..] == d[i + 1..];
  }

  lemma SignatureFirst(text: string)
    ensures SIGNATURE <= text <==> SIGNATURE <= CString(text)
    ensures SIGNATURE <= text ==> CString(text)[3..] == CString(text[3..])
  {
    hide CString;
    if SIGNATURE <= text {
      var t1, t2 := text[1..], text[2..];
      CStringStep(text);
      CStringStep(t1);
      CStringStep(t2);
      assert t1[1..] == t2 && t2[1..] == text[3..];
      assert CString(text) == [text[0], text[1], text[2]] + CString(text[3..]);
    }
  }

  lemma CStringStep(s: string)
    requires s != "" && s[0] != NUL
    ensures CString(s) == [s[0]] + CString(s[1..])
  {}

  lemma BufferHolds(buf: seq<char>, raw: string)
    requires |buf| == |raw| + 1 && buf[|raw|] == NUL && forall i :: 0 <= i < |raw| ==> buf[i] == raw[i]
    ensures Holds(buf, 0, CString(raw))
  {}

  lemma KeysOf(data: map<string, SectionEntry>, doc: Doc, order: nat, name: string)
    requires Lists(data, doc, order) && Fold(name) in data
    ensures IndexOf(doc, name) < |doc| && ListsKeys(data[Fold(name)].keys, doc[IndexOf(doc, name)].items, order)
  {
    KnownSection(data, doc, order, name);
  }

  // ---- the maps and the round trip

  /** The maps never hold two sections, or two keys of a section, with one name. */
  lemma StoredIsDistinct(data: map<string, SectionEntry>, doc: Doc, order: nat)
    requires Lists(data, doc, order)
    ensures Distinct(doc)
  {
    forall i, j | 0 <= i < j < |doc| ensures Fold(doc[i].name) != Fold(doc[j].name) { OnlyOneNamed(data, doc, order, i, j); }
    forall part | part in doc ensures DistinctKeys(part.items) {
      var i :| 0 <= i < |doc| && doc[i] == part;
      assert SectionListed(data, doc[i], order);
      var keys := data[Fold(part.name)].keys;
      forall j, k | 0 <= j < k < |part.items| ensures Fold(part.items[j].key) != Fold(part.items[k].key) {
        OnlyOneKey(keys, part.items, order, j, k);
      }
    }
  }

  /** So what is stored, saved and loaded comes back, if its names and values are clean. */
  lemma StoredSurvives(cfg: Config, data: map<string, SectionEntry>, doc: Doc, order: nat)
    requires Lists(data, doc, order) && Clean(cfg, doc)
    ensures Load(cfg, [], SIGNATURE + Print(cfg, doc)) == Reloaded(doc)
    ensures !(SIGNATURE <= Print(cfg, doc)) ==> Load(cfg, [], Print(cfg, doc)) == Reloaded(doc)
  {
    hide Clean, Distinct, Load, Print, Reloaded;
    StoredIsDistinct(data, doc, order);
    RoundTrip(cfg, doc);
  }
}
