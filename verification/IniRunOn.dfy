/** Section names that run over line ends, as a key after an open header gets them: saved and loaded, such a
    name always comes back longer, so that only clean documents survive. */
module IniRunOn {
  import opened Wrappers
  import opened IniText
  import opened IniSyntax
  import opened IniLaws
  import opened IniRoundTrip
  import opened IniHeaders

  /** What stands behind the name in a saved text: the rest of the header line, an item, and more. */
  function Behind(cfg: Config, item: Item, rest: string): string {
    "]" + ("\n" + (PrintItem(cfg, item) + rest))
  }

  predicate CleanItem(cfg: Config, item: Item) {
    CleanKey(item.key) && CleanValue(cfg, item.value)
  }

  /** A key is found for a section whose name runs over a line end and is longer than `n`. */
  predicate Longer(f: Found, n: nat) {
    f.ItemFound? && |f.section| > n && !OneLine(f.section)
  }

  /** Read on from an open header, `u` and what a saved name has behind it give a longer name. */
  ghost predicate Onward(cfg: Config, u: string) {
    forall t, item, rest :: GoesOn(cfg, u, t, item, rest)
  }

  ghost predicate GoesOn(cfg: Config, u: string, t: string, item: Item, rest: string) {
    CleanItem(cfg, item) && Opened(Open(t), u) ==> Longer(Find(cfg, Open(t), u + Behind(cfg, item, rest)), |t| + |u|)
  }

  // ---- what an open header passes over, read again

  lemma SpacesOnward(cfg: Config, sp: string, u: string)
    requires Onward(cfg, u) && u != "" && !IsSpace(u[0]) && forall j :: 0 <= j < |sp| ==> IsSpace(sp[j])
    ensures Onward(cfg, sp + u)
  {
    hide Find, Behind, CleanItem, OneLine;
    forall t, item, rest ensures GoesOn(cfg, sp + u, t, item, rest) {
      var x := Behind(cfg, item, rest);
      if CleanItem(cfg, item) && Opened(Open(t), sp + u) {
        assert GoesOn(cfg, u, t + sp, item, rest);
        SkipsSpaces(cfg, t, sp, u + x);
        OpenedPast(t, sp, u);
        assert sp + u + x == sp + (u + x);
      }
    }
  }

  lemma OpenedPast(t: string, c: string, u: string)
    requires Opened(Open(t), c + u) && c + u != ""
    ensures Opened(Open(t + c), u)
  {
    Joins(t, c);
    if c != "" && IsNewLine(c[0]) { assert c[0] in c; }
  }

  lemma SpacesAre(sp: string, s: string)
    requires (s != "" ==> !IsSpace(s[0])) && forall j :: 0 <= j < |sp| ==> IsSpace(sp[j])
    ensures Spaces(sp + s) == |sp| && (sp + s)[..|sp|] == sp && AfterSpaces(sp + s) == s
  {
    assert (sp + s)[|sp|..] == s;
    SpacesUnique(sp + s, |sp|);
  }

  lemma SkipsSpaces(cfg: Config, t: string, sp: string, s: string)
    requires s != "" && !IsSpace(s[0]) && forall j :: 0 <= j < |sp| ==> IsSpace(sp[j])
    ensures Find(cfg, Open(t), sp + s) == Find(cfg, Open(t + sp), s)
  {
    SpacesAre(sp, s);
    NoSpacesPast(Open(t + sp), s);
  }

  /** A line without equals sign. */
  lemma LineOnward(cfg: Config, c: string, u: string)
    requires Onward(cfg, u) && u != "" && IsNewLine(u[0])
    requires c != "" && OneLine(c) && '=' !in c && !IsSpace(c[0]) && !IsComment(c[0]) && c[0] != '['
    ensures Onward(cfg, c + u)
  {
    hide Find, Behind, CleanItem, OneLine;
    forall t, item, rest ensures GoesOn(cfg, c + u, t, item, rest) {
      var x := Behind(cfg, item, rest);
      if CleanItem(cfg, item) && Opened(Open(t), c + u) {
        assert GoesOn(cfg, u, t + c, item, rest);
        SkipsLine(cfg, t, c, u + x);
        assert Opened(Open(t + c), u);
        assert c + u + x == c + (u + x);
      }
    }
  }

  lemma SkipsLine(cfg: Config, t: string, c: string, s: string)
    requires s != "" && IsNewLine(s[0])
    requires c != "" && OneLine(c) && '=' !in c && !IsSpace(c[0]) && !IsComment(c[0]) && c[0] != '['
    ensures Find(cfg, Open(t), c + s) == Find(cfg, Open(t + c), s)
  {
    hide Find;
    var a := c + s;
    NoSpacesPast(Open(t), a);
    forall i | 0 <= i < |c| ensures a[i] != '=' && !IsNewLine(a[i]) { assert c[i] in c; }
    UpToUnique(a, '=', |c|);
    assert a[..|c|] == c && a[|c|..] == s;
    FindIsAt(cfg, Open(t), a);
  }

  lemma FindIsAt(cfg: Config, ptr: Pointer, a: string)
    requires a != "" && !IsSpace(a[0])
    ensures Find(cfg, ptr, a) == FindAt(cfg, ptr, a)
  {
    NoSpacesPast(ptr, a);
  }

  /** A line that starts with the equals sign. */
  lemma EqualsOnward(cfg: Config, c: string, u: string)
    requires Onward(cfg, u) && u != "" && IsNewLine(u[0]) && c != "" && OneLine(c) && c[0] == '='
    ensures Onward(cfg, c + u)
  {
    hide Find, Behind, CleanItem, OneLine;
    forall t, item, rest ensures GoesOn(cfg, c + u, t, item, rest) {
      var x := Behind(cfg, item, rest);
      if CleanItem(cfg, item) && Opened(Open(t), c + u) {
        assert GoesOn(cfg, u, t + c, item, rest);
        SkipsEquals(cfg, t, c, u + x);
        assert Opened(Open(t + c), u);
        assert c + u + x == c + (u + x);
      }
    }
  }

  lemma SkipsEquals(cfg: Config, t: string, c: string, s: string)
    requires s != "" && IsNewLine(s[0]) && c != "" && OneLine(c) && c[0] == '='
    ensures Find(cfg, Open(t), c + s) == Find(cfg, Open(t + c), s)
  {
    hide Find;
    var a := c + s;
    LineIs(c, s);
    UpToUnique(a, '=', 0);
    FindIsAt(cfg, Open(t), a);
  }

  /** The key that ended the name: the bracket behind it makes its line one without a key. */
  lemma KeyOnward(cfg: Config, k: string)
    requires CleanKey(k)
    ensures Onward(cfg, k)
  {
    hide Find, CleanValue;
    forall t, item, rest ensures GoesOn(cfg, k, t, item, rest) {
      if CleanItem(cfg, item) {
        var s := PrintItem(cfg, item) + rest;
        assert k + Behind(cfg, item, rest) == k + "]" + ("\n" + s);
        assert (k + "]")[0] == k[0] && OneLine(k + "]");
        OtherLine(cfg, Open(t), k + "]", s);
        ItemExact(cfg, Open(t + (k + "]") + "\n"), item, rest);
        var name := t + (k + "]") + "\n" + item.key;
        assert name[|t| + |k| + 1] == '\n' && name[|t| + |k| + 1] in name;
      }
    }
  }

  // ---- comments: the text of one, read again, is the same text

  /** Lines of a comment with empty lines between them, as they are moved together. */
  predicate CommentLines(t: string)
    decreases |t|, 0
  {
    t != "" && IsComment(t[0]) && (TailOf(t) == "" || (TailOf(t)[0] == '\n' && MoreLines(TailOf(t)[1..])))
  }

  predicate MoreLines(r: string)
    decreases |r|, 1
  {
    r != "" && if r[0] == '\n' then MoreLines(r[1..]) else CommentLines(r)
  }

  /** Whatever comment lines follow `done`, the whole is comment lines. */
  ghost predicate Leads(done: string) {
    forall r :: CommentLines(r) ==> CommentLines(done + r)
  }

  lemma OneCommentLine(line: string)
    requires line != "" && IsComment(line[0]) && OneLine(line)
    ensures CommentLines(line)
  {
    LineIs(line, "");
    assert line + "" == line;
  }

  lemma {:induction false} BlanksLead(s: string, r: string)
    requires CommentLines(r)
    ensures MoreLines(BlankLines(s) + r)
    decreases |s|
  {
    if s != "" && IsSpace(s[0]) {
      if IsNewLine(s[0]) {
        BlanksLead(AfterNewLine(s), r);
        assert "\n" + BlankLines(AfterNewLine(s)) + r == "\n" + (BlankLines(AfterNewLine(s)) + r);
        assert ("\n" + (BlankLines(AfterNewLine(s)) + r))[1..] == BlankLines(AfterNewLine(s)) + r;
      } else {
        BlanksLead(s[1..], r);
      }
    } else {
      assert "" + r == r;
      assert r[0] != '\n';
    }
  }

  /** A comment line with what follows it leads on. */
  lemma LineLeads(done: string, line: string, blanks: string)
    requires Leads(done) && line != "" && IsComment(line[0]) && OneLine(line)
    requires forall r :: CommentLines(r) ==> MoreLines(blanks + r)
    ensures Leads(done + line + "\n" + blanks)
  {
    hide CommentLines, MoreLines;
    forall r | CommentLines(r) ensures CommentLines(done + line + "\n" + blanks + r) {
      LineThenLines(line, blanks + r);
      assert done + line + "\n" + blanks + r == done + (line + ("\n" + (blanks + r)));
    }
  }

  lemma LineThenLines(line: string, more: string)
    requires line != "" && IsComment(line[0]) && OneLine(line) && MoreLines(more)
    ensures CommentLines(line + ("\n" + more))
  {
    LineIs(line, "\n" + more);
    assert ("\n" + more)[1..] == more;
  }

  lemma FirstCommentLine(t: string)
    requires CommentLines(t)
    ensures IsComment(t[0]) && LineOf(t) != "" && LineOf(t)[0] == t[0] && t == LineOf(t) + TailOf(t)
    ensures TailOf(t) != "" ==> TailOf(t) == "\n" + TailOf(t)[1..] && MoreLines(TailOf(t)[1..])
  {
    FirstOfLine(t);
  }

  /** What is read as a comment: `line` is the last line of `done`, without blank lines behind it. */
  ghost predicate Read(done: string, s: string) {
    if done == "" then s != "" && IsComment(s[0])
    else if s != "" && IsComment(s[0]) then Leads(done)
    else done[|done| - 1] == '\n' && CommentLines(done[..|done| - 1]) && forall t :: LeadsOver(done, t)
  }

  ghost predicate LeadsOver(done: string, t: string) {
    Leads(done + BlankLines(t))
  }

  lemma {:induction false} CommentIsLines(s: string, done: string)
    requires Read(done, s)
    ensures CommentLines(Comment(s, done).0)
    decreases |s|
  {
    hide CommentLines, MoreLines;
    if s != "" && IsComment(s[0]) {
      NothingLeads();
      var line, tail := LineOf(s), TailOf(s);
      FirstOfLine(s);
      OneCommentLine(line);
      assert CommentLines(done + line) by { assert Leads(done); assert "" + line == line; }
      if tail != "" {
        LinesRead(done, line, AfterNewLine(tail));
        CommentIsLines(AfterNewLine(tail), done + line + "\n");
      }
    } else {
      var t := AfterSpaces(s);
      if t != "" && IsComment(t[0]) {
        assert LeadsOver(done, s);
        CommentIsLines(t, done + BlankLines(s));
      }
    }
  }

  lemma NothingLeads()
    ensures Leads("")
  {
    forall r | CommentLines(r) ensures CommentLines("" + r) { assert "" + r == r; }
  }

  lemma FirstOfLine(s: string)
    requires s != "" && !IsNewLine(s[0])
    ensures LineOf(s) != "" && LineOf(s)[0] == s[0]
  {}

  lemma LinesRead(done: string, line: string, s: string)
    requires Leads(done) && line != "" && IsComment(line[0]) && OneLine(line) && CommentLines(done + line)
    ensures Read(done + line + "\n", s)
  {
    hide CommentLines, MoreLines, Comment;
    var d := done + line + "\n";
    assert d[..|d| - 1] == done + line;
    forall t ensures LeadsOver(d, t) {
      forall r | CommentLines(r) ensures MoreLines(BlankLines(t) + r) { BlanksLead(t, r); }
      LineLeads(done, line, BlankLines(t));
    }
    assert LeadsOver(d, "") && BlankLines("") == "" && d + "" == d;
  }

  predicate Plain(l: string) {
    l != "" && !IsSpace(l[0]) && !IsComment(l[0])
  }

  lemma {:induction false} BlanksSplit(r: string, x: string) returns (c: string)
    requires MoreLines(r)
    ensures CommentLines(c) && AfterSpaces(r + x) == c + x && BlankLines(r + x) + c == r
    ensures |c| <= |r| && (r[0] == '\n' ==> |c| < |r|)
    decreases |r|
  {
    hide CommentLines;
    if r[0] == '\n' {
      c := BlanksSplit(r[1..], x);
      assert (r + x)[1..] == r[1..] + x;
      assert AfterNewLine(r + x) == r[1..] + x && Spaces(r + x) == 1 + Spaces(r[1..] + x);
      assert "\n" + BlankLines(r[1..] + x) + c == "\n" + (BlankLines(r[1..] + x) + c);
      assert r == "\n" + r[1..];
    } else {
      c := r;
      StartsComment(r);
      assert Spaces(r + x) == 0 && (r + x)[0..] == r + x && "" + r == r;
    }
  }

  lemma StartsComment(c: string)
    requires CommentLines(c)
    ensures c != "" && IsComment(c[0]) && !IsSpace(c[0])
  {}

  lemma {:induction false} CommentAgain(t: string, done: string, l: string)
    requires CommentLines(t) && Plain(l)
    ensures Comment(t + ("]" + ("\n" + l)), done) == (done + t + "]", l)
    decreases |t|, 0
  {
    hide Comment, CommentLines, MoreLines, LineOf, TailOf;
    var line, tail, x := LineOf(t), TailOf(t), "]" + ("\n" + l);
    FirstCommentLine(t);
    if tail == "" {
      assert line == t;
      CommentLine(t + "]", l, done);
      CommentEnds(done + (t + "]") + "\n", l);
      assert t + x == (t + "]") + ("\n" + l);
      assert (done + (t + "]") + "\n")[..|done| + |t| + 1] == done + t + "]";
    } else {
      var r := tail[1..];
      assert t == line + tail && tail == "\n" + r && t + x == line + ("\n" + (r + x));
      CommentLine(line, r + x, done);
      MoreAgain(r, done + line + "\n", l);
      assert done + line + "\n" + r + "]" == done + t + "]";
    }
  }

  lemma {:induction false} MoreAgain(r: string, done: string, l: string)
    requires MoreLines(r) && Plain(l) && done != ""
    ensures Comment(r + ("]" + ("\n" + l)), done) == (done + r + "]", l)
    decreases |r|, 1
  {
    hide Comment, CommentLines;
    var x := "]" + ("\n" + l);
    if r[0] == '\n' {
      var c := BlanksSplit(r, x);
      StartsComment(c);
      CommentBlanks(r + x, c + x, done);
      CommentAgain(c, done + BlankLines(r + x), l);
      assert done + BlankLines(r + x) + c + "]" == done + (BlankLines(r + x) + c) + "]";
    } else {
      CommentAgain(r, done, l);
    }
  }

  // one step of Comment each

  lemma CommentLine(line: string, s: string, done: string)
    requires line != "" && IsComment(line[0]) && OneLine(line)
    ensures Comment(line + ("\n" + s), done) == Comment(s, done + line + "\n")
  {
    LineIs(line, "\n" + s);
    AfterFeed(s);
  }

  lemma CommentEnds(done: string, l: string)
    requires Plain(l) && done != ""
    ensures Comment(l, done) == (done[..|done| - 1], l)
  {
    assert AfterSpaces(l) == l;
  }

  lemma CommentBlanks(s: string, t: string, done: string)
    requires s != "" && IsSpace(s[0]) && t == AfterSpaces(s) && t != "" && IsComment(t[0]) && done != ""
    ensures Comment(s, done) == Comment(t, done + BlankLines(s))
  {
    assert !IsComment(s[0]);
  }

  /** The comment that ended the name: the bracket makes it longer by one. */
  lemma CommentOnward(cfg: Config, c: string)
    requires CommentLines(c)
    ensures Onward(cfg, c)
  {
    hide Find, CleanValue, CommentLines;
    StartsComment(c);
    forall t, item, rest ensures GoesOn(cfg, c, t, item, rest) {
      if CleanItem(cfg, item) && Opened(Open(t), c) {
        var l := PrintItem(cfg, item) + rest;
        assert Plain(l) by { assert l[0] == item.key[0]; }
        CommentAgain(c, "", l);
        FindsComment(cfg, Open(t), c + Behind(cfg, item, rest));
        assert "" + c + "]" == c + "]";
        ItemExact(cfg, Ended(t + (c + "]")), item, rest);
        Joins(t, c + "]");
      }
    }
  }

  lemma FindsComment(cfg: Config, ptr: Pointer, a: string)
    requires a != "" && IsComment(a[0])
    ensures Find(cfg, ptr, a) == Find(cfg, Ended(ptr.EndedBy(Comment(a, "").0)), Comment(a, "").1)
  {
    hide Comment;
    FindIsAt(cfg, ptr, a);
  }

  // ---- where a name comes from

  /** Printed as a header, the name is read as an open one that gives a longer name, also behind a bracket
      alone on the line before. */
  ghost predicate Replays(cfg: Config, n: string) {
    n != "" && !IsSpace(n[0]) && forall item, rest :: ReplaysTo(cfg, n, item, rest)
  }

  ghost predicate ReplaysTo(cfg: Config, n: string, item: Item, rest: string) {
    CleanItem(cfg, item) ==>
      Longer(FindName(cfg, n + Behind(cfg, item, rest)), |n|) && Longer(FindName(cfg, "[" + (n + Behind(cfg, item, rest))), |n|)
  }

  /** The name is the text of the open header and `u`, what was read on from `s`. */
  ghost predicate Continues(cfg: Config, t: string, s: string, n: string, u: string) {
    && s != "" && u != "" && (IsNewLine(s[0]) ==> IsNewLine(u[0])) && (!IsSpace(s[0]) ==> !IsSpace(u[0]))
    && n == t + u && Onward(cfg, u)
  }

  ghost predicate Came(cfg: Config, ptr: Pointer, s: string, n: string) {
    Replays(cfg, n) || if ptr.Ended? then n == ptr.name else exists u :: Continues(cfg, ptr.text, s, n, u)
  }

  lemma OpenReplays(cfg: Config, h: string, u: string, item: Item, rest: string)
    requires h != "" && OneLine(h) && ']' !in h && u != "" && IsNewLine(u[0]) && Onward(cfg, u) && CleanItem(cfg, item)
    ensures Longer(FindName(cfg, h + (u + Behind(cfg, item, rest))), |h| + |u|)
  {
    hide Find, Behind, CleanItem;
    var s := u + Behind(cfg, item, rest);
    var b := h + s;
    assert GoesOn(cfg, u, h, item, rest);
    forall i | 0 <= i < |h| ensures b[i] != ']' && !IsNewLine(b[i]) { assert h[i] in h; }
    UpToUnique(b, ']', |h|);
    assert b[..|h|] == h && b[|h|..] == s;
  }

  lemma HeaderReplays(cfg: Config, h: string, u: string)
    requires h != "" && !IsSpace(h[0]) && OneLine(h) && ']' !in h && u != "" && IsNewLine(u[0]) && Onward(cfg, u)
    ensures Replays(cfg, h + u)
  {
    hide Onward, FindName, Behind, CleanItem, Longer;
    forall item, rest ensures ReplaysTo(cfg, h + u, item, rest) {
      if CleanItem(cfg, item) {
        var x := Behind(cfg, item, rest);
        OpenReplays(cfg, h, u, item, rest);
        assert h + u + x == h + (u + x);
        Bracketed(h);
        OpenReplays(cfg, "[" + h, u, item, rest);
        assert "[" + (h + u + x) == "[" + h + (u + x);
        LongerStill(FindName(cfg, "[" + (h + u + x)), |h| + |u|);
      }
    }
  }

  lemma Bracketed(h: string)
    requires OneLine(h) && ']' !in h
    ensures OneLine("[" + h) && ']' !in "[" + h
  {}

  lemma LongerStill(f: Found, n: nat)
    requires Longer(f, n + 1)
    ensures Longer(f, n)
  {}

  lemma {:induction false} CameFrom(cfg: Config, ptr: Pointer, s: string)
    requires Find(cfg, ptr, s).ItemFound?
    ensures Came(cfg, ptr, s, Find(cfg, ptr, s).section)
    decreases |s|, 2
  {
    hide Came, FindAt;
    CameAt(cfg, ptr.Past(s[..Spaces(s)]), AfterSpaces(s));
    assert AfterSpaces(s) != "" by { NothingAt(cfg, ptr.Past(s[..Spaces(s)])); }
    CameBehind(cfg, ptr, s[..Spaces(s)], AfterSpaces(s), s, Find(cfg, ptr, s).section);
  }

  lemma NothingAt(cfg: Config, ptr: Pointer)
    ensures FindAt(cfg, ptr, "").NoMore?
  {}

  /** Spaces that are passed over belong to the name as well. */
  lemma CameBehind(cfg: Config, ptr: Pointer, sp: string, a: string, s: string, n: string)
    requires Came(cfg, ptr.Past(sp), a, n) && s == sp + a && a != "" && !IsSpace(a[0])
    requires forall j :: 0 <= j < |sp| ==> IsSpace(sp[j])
    ensures Came(cfg, ptr, s, n)
  {
    hide Replays, Onward;
    if ptr.Open? && !Replays(cfg, n) {
      var u :| Continues(cfg, ptr.text + sp, a, n, u);
      SpacesOnward(cfg, sp, u);
      assert ptr.text + sp + u == ptr.text + (sp + u);
      assert Continues(cfg, ptr.text, s, n, sp + u);
    }
  }

  lemma {:induction false} CameAt(cfg: Config, ptr: Pointer, a: string)
    requires a != "" ==> !IsSpace(a[0])
    requires FindAt(cfg, ptr, a).ItemFound?
    ensures Came(cfg, ptr, a, FindAt(cfg, ptr, a).section)
    decreases |a|, 1
  {
    hide Replays, Onward, Comment, FindName, FindValue, CommentLines;
    var n := FindAt(cfg, ptr, a).section;
    if IsComment(a[0]) {
      var (text, rest) := Comment(a, "");
      CameFrom(cfg, Ended(ptr.EndedBy(text)), rest);
      CommentIsLines(a, "");
      StartsComment(text);
      CommentOnward(cfg, text);
      if ptr.Open? && !Replays(cfg, n) { assert Continues(cfg, ptr.text, a, n, text); }
    } else if a[0] == '[' {
      CameName(cfg, AfterSpaces(a[1..]));
    } else {
      CameLine(cfg, ptr, a);
    }
  }

  /** A line that is passed over belongs to the name. */
  lemma CameOver(cfg: Config, ptr: Pointer, c: string, s: string, a: string, n: string)
    requires Came(cfg, ptr.Past(c), s, n) && a == c + s && s != "" && IsNewLine(s[0])
    requires c != "" && OneLine(c) && !IsSpace(c[0])
    requires c[0] == '=' || ('=' !in c && !IsComment(c[0]) && c[0] != '[')
    ensures Came(cfg, ptr, a, n)
  {
    hide Replays, Onward;
    if ptr.Open? && !Replays(cfg, n) {
      var u :| Continues(cfg, ptr.text + c, s, n, u);
      if c[0] == '=' { EqualsOnward(cfg, c, u); } else { LineOnward(cfg, c, u); }
      assert ptr.text + c + u == ptr.text + (c + u);
      assert Continues(cfg, ptr.text, a, n, c + u);
    }
  }

  lemma {:induction false} CameLine(cfg: Config, ptr: Pointer, a: string)
    requires a != "" && !IsSpace(a[0]) && !IsComment(a[0]) && a[0] != '['
    requires FindAt(cfg, ptr, a).ItemFound?
    ensures Came(cfg, ptr, a, FindAt(cfg, ptr, a).section)
    decreases |a|, 0
  {
    hide Came, Find, FindValue;
    var end := UpTo(a, '=');
    if end == |a| || a[end] != '=' {
      var c := a[..end];
      assert end < |a| by { NothingFound(cfg, ptr.Past(c)); }
      CameFrom(cfg, ptr.Past(c), a[end..]);
      CameOver(cfg, ptr, c, a[end..], a, FindAt(cfg, ptr, a).section);
    } else if end == 0 {
      var c := LineOf(a);
      FirstOfLine(a);
      assert TailOf(a) != "" by { NothingFound(cfg, ptr.Past(c)); }
      CameFrom(cfg, ptr.Past(c), TailOf(a));
      CameOver(cfg, ptr, c, TailOf(a), a, FindAt(cfg, ptr, a).section);
    } else {
      CameKey(cfg, ptr, a, end);
    }
  }

  lemma CameKey(cfg: Config, ptr: Pointer, a: string, end: nat)
    requires a != "" && !IsSpace(a[0]) && !IsComment(a[0]) && a[0] != '['
    requires end == UpTo(a, '=') && 0 < end < |a| && a[end] == '=' && FindAt(cfg, ptr, a).ItemFound?
    ensures Came(cfg, ptr, a, FindAt(cfg, ptr, a).section)
  {
    hide Find, FindValue, Onward, Replays, CleanValue;
    FoundIsClean(cfg, ptr, a);
    FindIsAt(cfg, ptr, a);
    var f := FindAt(cfg, ptr, a);
    KeyOnward(cfg, f.item.key);
    if ptr.Open? { assert Continues(cfg, ptr.text, a, f.section, f.item.key); }
  }

  lemma NothingFound(cfg: Config, ptr: Pointer)
    ensures Find(cfg, ptr, "").NoMore?
  {}

  lemma {:induction false} CameName(cfg: Config, b: string)
    requires b != "" ==> !IsSpace(b[0])
    requires FindName(cfg, b).ItemFound?
    ensures Replays(cfg, FindName(cfg, b).section)
    decreases |b|, 3
  {
    hide Replays, Onward, Find;
    var end := UpTo(b, ']');
    assert end < |b| by { NothingFound(cfg, Open(b[..end])); }
    CameFrom(cfg, Open(b[..end]), b[end..]);
    var n := FindName(cfg, b).section;
    if !Replays(cfg, n) {
      var u :| Continues(cfg, b[..end], b[end..], n, u);
      HeaderReplays(cfg, b[..end], u);
    }
  }

  // ---- a printed header is reached, whatever stands before it

  predicate Ends(a: string) {
    a == "" || a[|a| - 1] == '\n'
  }

  lemma UpToBefore(a: string, b: string, c: char)
    requires a != "" && Ends(a)
    ensures UpTo(a, c) < |a| && UpTo(a + b, c) == UpTo(a, c)
    ensures (a + b)[..UpTo(a, c)] == a[..UpTo(a, c)] && (a + b)[UpTo(a, c)..] == a[UpTo(a, c)..] + b
    ensures Ends(a[UpTo(a, c)..])
  {
    var i := UpTo(a, c);
    assert i <= |a| - 1 by { assert IsNewLine(a[|a| - 1]); }
    forall j | 0 <= j <= i ensures (a + b)[j] == a[j] {}
    UpToUnique(a + b, c, i);
  }

  lemma LineBefore(a: string, b: string)
    requires a != "" && Ends(a)
    ensures LineOf(a + b) == LineOf(a) && TailOf(a) != "" && TailOf(a + b) == TailOf(a) + b && Ends(TailOf(a))
  {
    UpToBefore(a, b, '\n');
  }

  lemma NewLineBefore(tail: string, b: string)
    requires tail != "" && Ends(tail) && IsNewLine(tail[0])
    ensures AfterNewLine(tail + b) == AfterNewLine(tail) + b && Ends(AfterNewLine(tail)) && |AfterNewLine(tail)| < |tail|
  {
    assert |tail| > 1 ==> (tail + b)[1] == tail[1];
  }

  lemma SpacesBefore(a: string, b: string)
    requires Ends(a) && b != "" && !IsSpace(b[0])
    ensures AfterSpaces(a + b) == AfterSpaces(a) + b && Ends(AfterSpaces(a)) && Spaces(a + b) == Spaces(a)
  {
    var sp := a[..Spaces(a)];
    assert a + b == sp + (AfterSpaces(a) + b);
    SpacesAre(sp, AfterSpaces(a) + b);
  }

  lemma {:induction false} CommentBefore(s: string, done: string, b: string) returns (r: string)
    requires (done != "" || (s != "" && IsComment(s[0]))) && Ends(s) && Plain(b)
    ensures Comment(s + b, done).1 == r + b && Ends(r) && |r| <= |s| && (s != "" && IsComment(s[0]) ==> |r| < |s|)
    decreases |s|
  {
    if s != "" && IsComment(s[0]) {
      LineBefore(s, b);
      NewLineBefore(TailOf(s), b);
      r := CommentBefore(AfterNewLine(TailOf(s)), done + LineOf(s) + "\n", b);
    } else {
      SpacesBefore(s, b);
      var t := AfterSpaces(s);
      if t != "" && IsComment(t[0]) {
        r := CommentBefore(t, done + BlankLines(s + b), b);
      } else {
        r := s;
        assert t == "" ==> t + b == b;
      }
    }
  }

  /** Reading comes to the header, or to a bracket alone on the line before it, or stops before. */
  ghost predicate Reaches(cfg: Config, f: Found, a: string, b: string, a': string) {
    || f == FindName(cfg, b) || f == FindName(cfg, "[" + b)
    || (!f.NoMore? && |a'| < |a| && Ends(a') && f.rest == a' + ("[" + b))
  }

  lemma {:induction false} FindReaches(cfg: Config, ptr: Pointer, a: string, b: string) returns (a': string)
    requires !cfg.multiLine && Ends(a) && b != "" && !IsSpace(b[0])
    ensures Reaches(cfg, Find(cfg, ptr, a + ("[" + b)), a, b, a')
    decreases |a|, 2
  {
    hide FindName, Reaches;
    SpacesBefore(a, "[" + b);
    var ptr' := ptr.Past((a + ("[" + b))[..Spaces(a)]);
    a' := AtReaches(cfg, ptr', AfterSpaces(a), b);
    ReachesLess(cfg, Find(cfg, ptr, a + ("[" + b)), AfterSpaces(a), a, b, a');
  }

  lemma ReachesLess(cfg: Config, f: Found, s: string, a: string, b: string, a': string)
    requires Reaches(cfg, f, s, b, a') && |s| <= |a|
    ensures Reaches(cfg, f, a, b, a')
  {}

  lemma {:induction false} AtReaches(cfg: Config, ptr: Pointer, a: string, b: string) returns (a': string)
    requires !cfg.multiLine && Ends(a) && b != "" && !IsSpace(b[0]) && (a != "" ==> !IsSpace(a[0]))
    ensures (a + ("[" + b))[0] == '[' || a != ""
    ensures Reaches(cfg, FindAt(cfg, ptr, a + ("[" + b)), a, b, a')
    decreases |a|, 1
  {
    hide FindName, Reaches, Comment;
    var h := "[" + b;
    a' := "";
    if a == "" {
      assert a + h == h && h[1..] == b;
      NoSpacesPast(ptr, b);
      ReachesNow(cfg, b, a, a');
    } else if IsComment(a[0]) {
      var r := CommentBefore(a, "", h);
      a' := FindReaches(cfg, Ended(ptr.EndedBy(Comment(a + h, "").0)), r, b);
      ReachesLess(cfg, FindAt(cfg, ptr, a + h), r, a, b, a');
    } else if a[0] == '[' {
      assert (a + h)[1..] == a[1..] + h;
      SpacesBefore(a[1..], h);
      a' := NameReaches(cfg, AfterSpaces(a[1..]), b);
      ReachesLess(cfg, FindAt(cfg, ptr, a + h), AfterSpaces(a[1..]) + " ", a, b, a');
    } else {
      a' := LineReaches(cfg, ptr, a, b);
    }
  }

  lemma ReachesNow(cfg: Config, b: string, a: string, a': string)
    ensures Reaches(cfg, FindName(cfg, b), a, b, a') && Reaches(cfg, FindName(cfg, "[" + b), a, b, a')
  {}

  lemma ReachesLater(cfg: Config, f: Found, a: string, b: string, a': string)
    requires !f.NoMore? && |a'| < |a| && Ends(a') && f.rest == a' + ("[" + b)
    ensures Reaches(cfg, f, a, b, a')
  {}

  lemma {:induction false} NameReaches(cfg: Config, a: string, b: string) returns (a': string)
    requires !cfg.multiLine && Ends(a) && b != "" && !IsSpace(b[0]) && (a != "" ==> !IsSpace(a[0]))
    ensures Reaches(cfg, FindName(cfg, a + ("[" + b)), a + " ", b, a')
    decreases |a|, 3
  {
    hide Reaches, FindName;
    var h := "[" + b;
    a' := "";
    if a == "" {
      assert a + h == h;
      ReachesNow(cfg, b, a + " ", a');
    } else {
      UpToBefore(a, h, ']');
      var end := UpTo(a, ']');
      if a[end] != ']' {
        OpenName(cfg, a, h, end);
        a' := FindReaches(cfg, Open((a + h)[..end]), a[end..], b);
        ReachesLess(cfg, FindName(cfg, a + h), a[end..], a + " ", b, a');
      } else {
        a' := ClosedName(cfg, a, h, end);
        ReachesLater(cfg, FindName(cfg, a + h), a + " ", b, a');
      }
    }
  }

  lemma OpenName(cfg: Config, a: string, h: string, end: nat)
    requires a != "" && end == UpTo(a + h, ']') < |a| && a[end] != ']' && (a + h)[end..] == a[end..] + h
    ensures FindName(cfg, a + h) == Find(cfg, Open((a + h)[..end]), a[end..] + h)
  {
    hide Find;
  }

  lemma ClosedName(cfg: Config, a: string, h: string, end: nat) returns (a': string)
    requires Ends(a) && a != "" && end == UpTo(a + h, ']') < |a| && a[end] == ']'
    ensures var f := FindName(cfg, a + h); f.SectionFound? && f.rest == a' + h
    ensures Ends(a') && |a'| < |a|
  {
    hide Find;
    var b := a[end + 1..];
    assert (a + h)[end + 1..] == b + h && b != "" && Ends(b);
    LineBefore(b, h);
    a' := TailOf(b);
  }

  lemma {:induction false} LineReaches(cfg: Config, ptr: Pointer, a: string, b: string) returns (a': string)
    requires !cfg.multiLine && Ends(a) && b != "" && !IsSpace(b[0])
    requires a != "" && !IsSpace(a[0]) && !IsComment(a[0]) && a[0] != '['
    ensures Reaches(cfg, FindAt(cfg, ptr, a + ("[" + b)), a, b, a')
    decreases |a|, 0
  {
    hide Reaches, Find, FindValue;
    var h := "[" + b;
    UpToBefore(a, h, '=');
    var end := UpTo(a, '=');
    if a[end] != '=' {
      a' := FindReaches(cfg, ptr.Past((a + h)[..end]), a[end..], b);
      ReachesLess(cfg, FindAt(cfg, ptr, a + h), a[end..], a, b, a');
    } else if end == 0 {
      LineBefore(a, h);
      FirstOfLine(a);
      a' := FindReaches(cfg, ptr.Past(LineOf(a)), TailOf(a), b);
      ReachesLess(cfg, FindAt(cfg, ptr, a + h), TailOf(a), a, b, a');
    } else {
      assert (a + h)[end + 1..] == a[end + 1..] + h && a[end + 1..] != "" && Ends(a[end + 1..]);
      a' := ValueBefore(cfg, ptr.EndedBy(TrimEnd((a + h)[..end])), TrimEnd((a + h)[..end]), a[end + 1..], h);
      ReachesLater(cfg, FindAt(cfg, ptr, a + h), a, b, a');
    }
  }

  lemma ValueBefore(cfg: Config, section: string, key: string, v: string, h: string) returns (a': string)
    requires !cfg.multiLine && v != "" && Ends(v) && h != "" && !IsSpace(h[0])
    ensures var f := FindValue(cfg, section, key, AfterBlanks(v + h));
            f.ItemFound? && f.rest == a' + h && Ends(a') && |a'| < |v|
  {
    BlanksBefore(v, h);
    var w := AfterBlanks(v);
    LineBefore(w, h);
    NewLineBefore(TailOf(w), h);
    a' := AfterNewLine(TailOf(w));
  }

  lemma {:induction false} BlanksBefore(v: string, h: string)
    requires v != "" && Ends(v) && h != "" && !IsSpace(h[0])
    ensures AfterBlanks(v + h) == AfterBlanks(v) + h && AfterBlanks(v) != "" && Ends(AfterBlanks(v))
  {
    if IsSpace(v[0]) && !IsNewLine(v[0]) {
      assert (v + h)[1..] == v[1..] + h && v[1..] != "";
      BlanksBefore(v[1..], h);
    }
  }

  // ---- whole texts

  predicate HasLongName(doc: Doc, n: nat) {
    exists i :: 0 <= i < |doc| && |doc[i].name| > n && !OneLine(doc[i].name)
  }

  lemma AddKeepsLong(doc: Doc, section: string, item: Item, n: nat)
    ensures HasLongName(doc, n) ==> HasLongName(AddSection(doc, section), n) && HasLongName(AddItem(doc, section, item), n)
    ensures |section| > n && !OneLine(section) ==> HasLongName(AddItem(doc, section, item), n)
  {
    hide OneLine, AddItem, AddSection, Fold;
    AddedNames(doc, section, item);
    if HasLongName(doc, n) {
      var i :| 0 <= i < |doc| && |doc[i].name| > n && !OneLine(doc[i].name);
      assert AddSection(doc, section)[i] == doc[i] && AddItem(doc, section, item)[i].name == doc[i].name;
    }
    var d := AddItem(doc, section, item);
    var i :| 0 <= i < |d| && Fold(d[i].name) == Fold(section);
    FoldKeepsLines(d[i].name, section);
    FoldLength(d[i].name);
    FoldLength(section);
  }

  lemma {:induction false} LongStays(cfg: Config, doc: Doc, section: string, s: string, n: nat)
    requires HasLongName(doc, n)
    ensures HasLongName(Parse(cfg, doc, section, s), n)
    decreases |s|
  {
    hide Find, HasLongName, AddItem, AddSection;
    match Find(cfg, Ended(section), s)
    case NoMore =>
    case SectionFound(name, rest) =>
      AddKeepsLong(doc, name, Item("", ""), n);
      LongStays(cfg, AddSection(doc, name), name, rest, n);
    case ItemFound(name, item, rest) =>
      AddKeepsLong(doc, name, item, n);
      LongStays(cfg, AddItem(doc, name, item), name, rest, n);
  }

  /** Wherever the header stands in the text, the longer name is loaded. */
  lemma {:induction false} LongIsLoaded(cfg: Config, doc: Doc, section: string, a: string, b: string, n: nat)
    requires !cfg.multiLine && Ends(a) && b != "" && !IsSpace(b[0])
    requires Longer(FindName(cfg, b), n) && Longer(FindName(cfg, "[" + b), n)
    ensures HasLongName(Parse(cfg, doc, section, a + ("[" + b)), n)
    decreases |a|
  {
    hide Find, FindName, HasLongName, AddItem, AddSection, OneLine;
    var a' := FindReaches(cfg, Ended(section), a, b);
    var f := Find(cfg, Ended(section), a + ("[" + b));
    if Longer(f, n) {
      AddKeepsLong(doc, f.section, f.item, n);
      LongStays(cfg, AddItem(doc, f.section, f.item), f.section, f.rest, n);
    } else {
      match f
      case SectionFound(name, rest) => LongIsLoaded(cfg, AddSection(doc, name), name, a', b, n);
      case ItemFound(name, item, rest) => LongIsLoaded(cfg, AddItem(doc, name, item), name, a', b, n);
    }
  }

  // ---- what a text loads: every name clean, or one that replays, with items

  ghost predicate GoodName(cfg: Config, n: string) {
    CleanSection(n) || (!OneLine(n) && Replays(cfg, n))
  }

  ghost predicate GoodPart(cfg: Config, part: Part) {
    CleanSection(part.name) || (!OneLine(part.name) && Replays(cfg, part.name) && part.items != [])
  }

  ghost predicate GoodParts(cfg: Config, doc: Doc) {
    forall i :: 0 <= i < |doc| ==> GoodPart(cfg, doc[i])
  }

  lemma AddSectionGood(cfg: Config, doc: Doc, name: string)
    requires GoodParts(cfg, doc) && CleanSection(name)
    ensures GoodParts(cfg, AddSection(doc, name))
  {
    hide CleanSection, Replays, IndexOf;
  }

  lemma AddItemGood(cfg: Config, doc: Doc, name: string, item: Item)
    requires GoodParts(cfg, doc) && GoodName(cfg, name)
    ensures GoodParts(cfg, AddItem(doc, name, item))
  {
    hide CleanSection, Replays, IndexOf, KeyIndex, OneLine;
    var d, k := AddSection(doc, name), IndexOf(AddSection(doc, name), name);
    var put := PutItem(d[k].items, item);
    assert put != [];
    forall i | 0 <= i < |d| ensures GoodPart(cfg, AddItem(doc, name, item)[i]) {
      assert i < |doc| ==> d[i] == doc[i] && GoodPart(cfg, doc[i]);
      assert i >= |doc| ==> d[i].name == name;
      assert i >= |doc| ==> i == k by { OnlyLastIsNew(doc, name, i, k); }
    }
  }

  lemma OnlyLastIsNew(doc: Doc, name: string, i: nat, k: nat)
    requires i < |AddSection(doc, name)| && k == IndexOf(AddSection(doc, name), name)
    ensures i >= |doc| ==> i == k
  {
    if i >= |doc| {
      FirstNamed(AddSection(doc, name), name, |doc|);
    }
  }

  lemma FirstNamed(doc: Doc, name: string, i: nat)
    requires i < |doc| && Fold(doc[i].name) == Fold(name) && forall j :: 0 <= j < i ==> Fold(doc[j].name) != Fold(name)
    ensures IndexOf(doc, name) == i
  {}

  lemma {:induction false} LoadedIsGood(cfg: Config, doc: Doc, section: string, s: string)
    requires GoodParts(cfg, doc) && GoodName(cfg, section)
    ensures GoodParts(cfg, Parse(cfg, doc, section, s))
    decreases |s|
  {
    hide Find, GoodParts, Replays, CleanSection, AddItem, AddSection, OneLine;
    var f := Find(cfg, Ended(section), s);
    FindScans(cfg, Ended(section), s);
    FoundIsClean(cfg, Ended(section), s);
    match f
    case NoMore =>
    case SectionFound(name, rest) =>
      AddSectionGood(cfg, doc, name);
      LoadedIsGood(cfg, AddSection(doc, name), name, rest);
    case ItemFound(name, item, rest) =>
      CameFrom(cfg, Ended(section), s);
      AddItemGood(cfg, doc, name, item);
      LoadedIsGood(cfg, AddItem(doc, name, item), name, rest);
  }

  lemma LongestRunOn(doc: Doc) returns (k: nat)
    requires HasRunOnName(doc)
    ensures k < |doc| && !OneLine(doc[k].name) && !HasLongName(doc, |doc[k].name|)
  {
    hide OneLine;
    k :| 0 <= k < |doc| && !OneLine(doc[k].name);
    var i := 0;
    while i < |doc|
      invariant 0 <= i <= |doc| && k < |doc| && !OneLine(doc[k].name)
      invariant forall j :: 0 <= j < i && !OneLine(doc[j].name) ==> |doc[j].name| <= |doc[k].name|
    {
      if !OneLine(doc[i].name) && |doc[i].name| > |doc[k].name| { k := i; }
      i := i + 1;
    }
  }

  /** A section with a name and an item, in its place in the printed text. */
  lemma {:induction false} PrintedAt(cfg: Config, doc: Doc, needNewLine: bool, k: nat) returns (a: string, rest: string)
    requires k < |doc| && doc[k].name != "" && doc[k].items != []
    ensures PrintParts(cfg, doc, needNewLine) == a + ("[" + (doc[k].name + Behind(cfg, doc[k].items[0], rest)))
    ensures Ends(a) && (needNewLine ==> a != "")
  {
    hide PrintItem, PrintItems, PrintHeader, Behind;
    var sep := if needNewLine then "\n\n" else "";
    if k == 0 {
      a, rest := sep, PrintItems(cfg, doc[0].items[1..]) + PrintParts(cfg, doc[1..], true);
      PrintedFirst(cfg, sep, doc[0], PrintParts(cfg, doc[1..], true));
    } else {
      var before := sep + PrintHeader(doc[0].name) + PrintItems(cfg, doc[0].items);
      a, rest := PrintedAt(cfg, doc[1..], true, k - 1);
      PutBefore(before, a, "[" + (doc[k].name + Behind(cfg, doc[k].items[0], rest)));
      a := before + a;
    }
  }

  lemma PutBefore(before: string, a: string, h: string)
    requires a != "" && Ends(a)
    ensures before + (a + h) == before + a + h && Ends(before + a) && before + a != ""
  {}

  lemma PrintedFirst(cfg: Config, sep: string, part: Part, more: string)
    requires part.name != "" && part.items != []
    ensures sep + PrintHeader(part.name) + PrintItems(cfg, part.items) + more
         == sep + ("[" + (part.name + Behind(cfg, part.items[0], PrintItems(cfg, part.items[1..]) + more)))
  {
    hide PrintItem;
    var i, others := PrintItem(cfg, part.items[0]), PrintItems(cfg, part.items[1..]);
    assert PrintItems(cfg, part.items) == i + others;
    assert sep + ("[" + part.name + "]\n") + (i + others) + more == sep + ("[" + (part.name + ("]" + ("\n" + (i + (others + more))))));
  }

  /** A document that comes back with a name that runs on would have a longer one. */
  lemma LongestIsNotLongest(cfg: Config, doc: Doc, k: nat)
    requires !cfg.multiLine && CleanContents(cfg, EmptyFirst(doc)) && k < |EmptyFirst(doc)|
    requires var part := EmptyFirst(doc)[k]; Replays(cfg, part.name) && part.items != []
    ensures HasLongName(Parse(cfg, [], "", Print(cfg, doc)), |EmptyFirst(doc)[k].name|)
  {
    hide Replays, EmptyFirst, FindName, Parse, HasLongName, Behind;
    var d := EmptyFirst(doc);
    var part := d[k];
    NamedAtFirst(cfg, part.name);
    var a, rest := PrintedAt(cfg, d, false, k);
    assert part in d && part.items[0] in part.items;
    ReplaysLonger(cfg, part.name, part.items[0], rest);
    assert (part.name + Behind(cfg, part.items[0], rest))[0] == part.name[0];
    LongIsLoaded(cfg, [], "", a, part.name + Behind(cfg, part.items[0], rest), |part.name|);
  }

  lemma NamedAtFirst(cfg: Config, n: string)
    requires Replays(cfg, n)
    ensures n != "" && !IsSpace(n[0])
  {}

  lemma ReplaysLonger(cfg: Config, n: string, item: Item, rest: string)
    requires Replays(cfg, n) && CleanItem(cfg, item)
    ensures Longer(FindName(cfg, n + Behind(cfg, item, rest)), |n|) && Longer(FindName(cfg, "[" + (n + Behind(cfg, item, rest))), |n|)
  {
    assert ReplaysTo(cfg, n, item, rest);
  }

  lemma ReloadedIsPrinted(doc: Doc, k: nat)
    requires k < |Reloaded(doc)|
    ensures exists j :: 0 <= j < |EmptyFirst(doc)| && EmptyFirst(doc)[j] == Reloaded(doc)[k]
  {
    var d, r := EmptyFirst(doc), Reloaded(doc);
    assert r == d || (r == d[1..] && d[1..][k] == d[k + 1]);
  }

  lemma PrintedContents(cfg: Config, doc: Doc)
    requires CleanContents(cfg, Reloaded(doc))
    ensures CleanContents(cfg, EmptyFirst(doc))
  {
    var d, r := EmptyFirst(doc), Reloaded(doc);
    forall part | part in d ensures CleanItems(cfg, part.items) {
      var j :| 0 <= j < |d| && d[j] == part;
      assert r != d && j > 0 ==> r[j - 1] == part;
      assert part in r || part == Part("", []);
    }
  }

  lemma AllCleanOrRunOn(cfg: Config, doc: Doc)
    requires GoodParts(cfg, doc)
    ensures CleanNames(doc) || HasRunOnName(doc)
  {
    hide CleanSection, Replays, OneLine;
    if !HasRunOnName(doc) {
      forall part | part in doc ensures CleanSection(part.name) {
        var i :| 0 <= i < |doc| && doc[i] == part;
        assert GoodPart(cfg, doc[i]);
      }
    }
  }

  /** Only a clean document is loaded back from its saved text. */
  lemma OnlyCleanSurvives(cfg: Config, doc: Doc)
    requires !cfg.multiLine && Parse(cfg, [], "", Print(cfg, doc)) == Reloaded(doc)
    ensures Clean(cfg, doc)
  {
    hide Parse, Print, GoodPart, CleanContents, CleanNames, Clean, Replays, Reloaded, EmptyFirst, HasLongName, OneLine;
    var loaded := Parse(cfg, [], "", Print(cfg, doc));
    NothingLoaded(cfg);
    ContentsAreClean(cfg, [], "", Print(cfg, doc));
    NothingIsClean(cfg);
    LoadedIsGood(cfg, [], "", Print(cfg, doc));
    AllCleanOrRunOn(cfg, loaded);
    CleanIsBoth(cfg, loaded);
    ReloadedClean(cfg, doc);
    if HasRunOnName(loaded) {
      var k := LongestRunOn(loaded);
      assert GoodPart(cfg, loaded[k]);
      RunOnReplays(cfg, loaded[k]);
      ReloadedIsPrinted(doc, k);
      var j :| 0 <= j < |EmptyFirst(doc)| && EmptyFirst(doc)[j] == Reloaded(doc)[k];
      PrintedContents(cfg, doc);
      LongestIsNotLongest(cfg, doc, j);
    }
  }

  lemma RunOnReplays(cfg: Config, part: Part)
    requires GoodPart(cfg, part) && !OneLine(part.name)
    ensures Replays(cfg, part.name) && part.items != []
  {}

  /** A distinct document is clean exactly when its saved text loads as the document it was. */
  lemma RoundTripExact(cfg: Config, doc: Doc)
    requires !cfg.multiLine && Distinct(doc)
    ensures Clean(cfg, doc) <==> Load(cfg, [], SIGNATURE + Print(cfg, doc)) == Reloaded(doc)
  {
    hide Parse, Print, Clean, Reloaded;
    var text := SIGNATURE + Print(cfg, doc);
    assert text[3..] == Print(cfg, doc);
    if Clean(cfg, doc) {
      RoundTrip(cfg, doc);
    } else if Load(cfg, [], text) == Reloaded(doc) {
      OnlyCleanSurvives(cfg, doc);
    }
  }
}
