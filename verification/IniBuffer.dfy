/** Reading INI text in place: the pointers of SimpleIni.h are positions in one buffer, in which the
    strings found are ended by NUL characters and the lines of multi-line values moved together. */
module IniBuffer {
  import opened Wrappers
  import opened IniText
  import opened IniSyntax

  const NUL: char := '\0'

  /** The string a pointer to the start of `s` stands for. */
  function CString(s: string): (t: string)
    ensures t <= s && NUL !in t && (|t| < |s| ==> s[|t|] == NUL)
  {
    if s == "" || s[0] == NUL then "" else [s[0]] + CString(s[1..])
  }

  ghost predicate Spells(buf: seq<char>, p: nat, s: string) {
    p + |s| <= |buf| && forall j :: p <= j < p + |s| ==> buf[j] == s[j - p]
  }

  /** From `p` on the buffer holds `s` and a NUL. */
  ghost predicate Holds(buf: seq<char>, p: nat, s: string) {
    p + |s| < |buf| && Spells(buf, p, s) && buf[p + |s|] == NUL && NUL !in s
  }

  ghost predicate Same(a: seq<char>, b: seq<char>, from: nat, to: nat) {
    |a| == |b| && to <= |a| && forall j :: from <= j < to ==> a[j] == b[j]
  }

  lemma HoldsIs(buf: seq<char>, p: nat, s: string)
    requires Holds(buf, p, s)
    ensures CString(buf[p..]) == s
  {
    var u := buf[p..];
    forall i | 0 <= i < |s| ensures u[i] == s[i] && u[i] != NUL { assert s[i] in s; }
    CStringUnique(u, |s|);
    assert u[..|s|] == s;
  }

  lemma CStringUnique(s: string, n: nat)
    requires n <= |s| && (n < |s| ==> s[n] == NUL) && forall j :: 0 <= j < n ==> s[j] != NUL
    ensures CString(s) == s[..n]
  {
    var t := CString(s);
    assert forall j :: 0 <= j < |t| ==> t[j] in t && t[j] == s[j];
  }

  /** The string at a position. */
  method StringAt(buf: array<char>, p: nat, ghost s: string) returns (t: string)
    requires Holds(buf[..], p, s)
    ensures t == s
  {
    HoldsIs(buf[..], p, s);
    assert buf[p..] == buf[..][p..];
    t := CString(buf[p..]);
  }

  lemma HoldsTail(buf: seq<char>, p: nat, s: string, i: nat)
    requires Holds(buf, p, s) && i <= |s|
    ensures Holds(buf, p + i, s[i..])
  {
    assert forall c :: c in s[i..] ==> c in s;
  }

  // ---- scanning

  method SkipTo(buf: array<char>, start: nat, c: char, ghost s: string) returns (p: nat)
    requires Holds(buf[..], start, s) && c != NUL
    ensures p == start + UpTo(s, c)
    ensures buf[p] == if UpTo(s, c) < |s| then s[UpTo(s, c)] else NUL
  {
    p := start;
    while buf[p] != NUL && buf[p] != c && !IsNewLine(buf[p])
      invariant start <= p <= start + |s|
      invariant forall j :: 0 <= j < p - start ==> s[j] != c && !IsNewLine(s[j])
      decreases start + |s| - p
    {
      assert buf[p] == buf[..][p] == s[p - start];
      p := p + 1;
    }
    assert p < start + |s| ==> buf[..][p] == s[p - start] && s[p - start] in s;
  }

  method SkipToLineEnd(buf: array<char>, start: nat, ghost s: string) returns (p: nat)
    requires Holds(buf[..], start, s)
    ensures p == start + LineEnd(s) && Holds(buf[..], p, TailOf(s))
  {
    p := SkipTo(buf, start, '\n', s);
    HoldsTail(buf[..], start, s, LineEnd(s));
  }

  method SkipSpaces(buf: array<char>, start: nat, ghost s: string) returns (p: nat)
    requires Holds(buf[..], start, s)
    ensures p == start + Spaces(s) && Holds(buf[..], p, AfterSpaces(s))
    ensures buf[p] == if AfterSpaces(s) == "" then NUL else AfterSpaces(s)[0]
  {
    p := start;
    while buf[p] != NUL && IsSpace(buf[p])
      invariant start <= p <= start + |s| && forall j :: 0 <= j < p - start ==> IsSpace(s[j])
      decreases start + |s| - p
    {
      assert buf[p] == buf[..][p] == s[p - start];
      p := p + 1;
    }
    assert p < start + |s| ==> buf[..][p] == s[p - start] && s[p - start] in s;
    HoldsTail(buf[..], start, s, Spaces(s));
  }

  method SkipBlanks(buf: array<char>, start: nat, ghost s: string) returns (p: nat)
    requires Holds(buf[..], start, s)
    ensures p == start + Blanks(s) && Holds(buf[..], p, AfterBlanks(s))
  {
    p := start;
    while buf[p] != NUL && !IsNewLine(buf[p]) && IsSpace(buf[p])
      invariant start <= p <= start + |s| && forall j :: 0 <= j < p - start ==> IsSpace(s[j]) && !IsNewLine(s[j])
      decreases start + |s| - p
    {
      assert buf[p] == buf[..][p] == s[p - start];
      p := p + 1;
    }
    assert p < start + |s| ==> buf[..][p] == s[p - start] && s[p - start] in s;
    HoldsTail(buf[..], start, s, Blanks(s));
  }

  /** The string at `start` is ended after its last character that is no space. */
  method TrimAt(buf: array<char>, start: nat, end: nat, ghost s: string)
    requires end == start + |s| < buf.Length && Spells(buf[..], start, s) && NUL !in s
    modifies buf
    ensures Holds(buf[..], start, TrimEnd(s))
    ensures Same(old(buf[..]), buf[..], 0, start) && Same(old(buf[..]), buf[..], end + 1, buf.Length)
    ensures buf[end] == NUL || buf[end] == old(buf[end])
  {
    var trail := end - 1;
    while trail >= start && IsSpace(buf[trail])
      invariant start - 1 <= trail < end && forall j :: trail < j < end ==> IsSpace(buf[j])
    {
      trail := trail - 1;
    }
    trail := trail + 1;
    ghost var t, b := TrimEnd(s), buf[..];
    assert forall j :: 0 <= j < |s| ==> s[j] == b[start + j] == buf[start + j];
    TrimEndUnique(s, trail - start);
    assert forall c :: c in t ==> c in s;
    buf[trail] := NUL;
    assert buf[..] == b[trail := NUL];
  }

  method SkipNewLine(buf: array<char>, p: nat, ghost tail: string) returns (next: nat)
    requires Holds(buf[..], p, tail) && tail != "" && IsNewLine(tail[0])
    ensures next == p + NewLineLength(tail) && Holds(buf[..], next, AfterNewLine(tail))
  {
    ghost var b := buf[..];
    assert b[p] == tail[0] && (|tail| > 1 ==> b[p + 1] == tail[1]) && b[p + |tail|] == NUL;
    next := p + if buf[p] == '\r' && buf[p + 1] == '\n' then 2 else 1;
    HoldsTail(b, p, tail, NewLineLength(tail));
  }

  /** `memmove` to a lower address. */
  method MoveDown(buf: array<char>, to: nat, from: nat, n: nat)
    requires to <= from && from + n <= buf.Length
    modifies buf
    ensures forall j :: 0 <= j < buf.Length && !(to <= j < to + n) ==> buf[j] == old(buf[j])
    ensures forall j :: to <= j < to + n ==> buf[j] == old(buf[j - to + from])
  {
    var k := 0;
    while k < n
      invariant k <= n
      invariant forall j :: 0 <= j < buf.Length && !(to <= j < to + k) ==> buf[j] == old(buf[j])
      invariant forall j :: to <= j < to + k ==> buf[j] == old(buf[j - to + from])
    {
      buf[to + k] := buf[from + k];
      k := k + 1;
    }
  }

  /** Where the string that is compared with the end tag is to end. */
  method FindTagEnd(buf: array<char>, data: nat, p: nat, ghost line: string) returns (pc: nat)
    requires 1 <= data && data + |line| <= p < buf.Length && Spells(buf[..], data, line)
    requires data + |line| < p ==> buf[data + |line|] == NUL
    ensures if data + |line| < p then data + |line| < pc <= p else pc == data + |TrimTag(line)|
  {
    var i := p - 1;
    while i > data && IsSpace(buf[i])
      invariant data - 1 <= i < p && (data < p ==> data <= i) && (data + |line| < p ==> data + |line| <= i)
      invariant forall j :: i < j < p ==> IsSpace(buf[j])
    {
      i := i - 1;
    }
    pc := i + 1;
    if data + |line| == p {
      ghost var b := buf[..];
      assert forall j :: 0 <= j < |line| ==> line[j] == b[data + j] == buf[data + j];
      TrimTagUnique(line, pc - data);
    }
  }

  // ---- multi-line values

  /** Between the lines of a value: `done` is in its place at `start..data`, `rest` is yet to be read. */
  ghost predicate Reading(before: seq<char>, buf: seq<char>, start: nat, data: nat, p: nat, done: string, rest: string) {
    && start <= data <= p && data == start + |done| && NUL !in done
    && Spells(buf, start, done) && Holds(buf, p, rest)
    && Same(before, buf, 0, start) && Same(before, buf, p, |buf|)
  }

  /** The line at `p0` is moved down to `data` and ended by a NUL there and where it was. */
  method PlaceLine(buf: array<char>, data: nat, p0: nat, ghost rest: string) returns (p: nat, endOfLineChar: char)
    requires data <= p0 && Holds(buf[..], p0, rest)
    modifies buf
    ensures var line, tail := LineOf(rest), TailOf(rest);
            && p == p0 + |line| < buf.Length && endOfLineChar == (if tail == "" then NUL else tail[0])
            && Holds(buf[..], data, line) && buf[p] == NUL
            && Same(old(buf[..]), buf[..], 0, data) && Same(old(buf[..]), buf[..], p + 1, buf.Length)
  {
    ghost var line, tail := LineOf(rest), TailOf(rest);
    p := SkipToLineEnd(buf, p0, rest);
    HoldsTail(buf[..], p0, rest, |line|);
    assert forall c :: c in line ==> c in rest;
    if data < p0 {
      MoveDown(buf, data, p0, p - p0);
      buf[data + (p - p0)] := NUL;
    }
    assert tail == "" ==> old(buf[..])[p] == NUL;
    endOfLineChar := buf[p];
    buf[p] := NUL;
  }

  /** Whether the line just placed is the end tag; if so, it is left trimmed, otherwise as it was. */
  method CheckTag(buf: array<char>, data: nat, p: nat, tag: string, ghost line: string) returns (isTag: bool)
    requires 1 <= data && data + |line| <= p < buf.Length && Holds(buf[..], data, line) && buf[p] == NUL
    modifies buf
    ensures var candidate := if data + |line| < p then line else TrimTag(line);
            && (isTag <==> Fold(candidate) == Fold(tag))
            && if isTag then
                 && Holds(buf[..], data, candidate) && buf[p] == NUL
                 && Same(old(buf[..]), buf[..], 0, data) && Same(old(buf[..]), buf[..], p + 1, buf.Length)
               else buf[..] == old(buf[..])
  {
    hide TrimTag, Fold, CString, Less;
    ghost var candidate := if data + |line| < p then line else TrimTag(line);
    assert forall c :: c in candidate ==> c in line;
    var pc := FindTagEnd(buf, data, p, line);
    var ch := buf[pc];
    buf[pc] := NUL;
    assert Holds(buf[..], data, candidate);
    HoldsIs(buf[..], data, candidate);
    assert buf[data..] == buf[..][data..];
    var isLess := IsLess(CString(buf[data..]), tag);
    var isGreater := IsLess(tag, CString(buf[data..]));
    TiesFoldAlike(candidate, tag);
    isTag := !isLess && !isGreater;
    if !isTag {
      buf[pc] := ch;
      assert buf[..] == old(buf[..]);
    }
  }

  lemma Joined(buf: seq<char>, start: nat, done: string, line: string)
    requires Spells(buf, start, done) && NUL !in done && Holds(buf, start + |done|, line)
    ensures Holds(buf, start, done + line)
  {}

  /** The newline behind the line just placed becomes a single character. */
  method EndLine(
    buf: array<char>, start: nat, data0: nat, p0: nat, endOfLineChar: char, n: nat,
    ghost before: seq<char>, ghost done: string, ghost line: string, ghost tail: string)
    returns (data: nat, p: nat)
    requires data0 == start + |done| && data0 + n <= p0 && n == |line|
    requires Spells(buf[..], start, done + line) && NUL !in done + line
    requires Holds(before, p0, tail) && tail != "" && endOfLineChar == tail[0] && IsNewLine(tail[0])
    requires Same(before, buf[..], 0, start) && Same(before, buf[..], p0 + 1, buf.Length)
    modifies buf
    ensures Reading(before, buf[..], start, data, p, done + line + "\n", AfterNewLine(tail))
    ensures p - data == p0 + NewLineLength(tail) - (data0 + n) - 1
  {
    buf[p0] := endOfLineChar;
    assert buf[..] == old(buf[..])[p0 := endOfLineChar];
    assert before[p0] == tail[0];
    assert Same(before, buf[..], p0, buf.Length);
    p := SkipNewLine(buf, p0, tail);
    data := data0 + n;
    ghost var b := buf[..];
    buf[data] := '\n';
    assert buf[..] == b[data := '\n'];
    data := data + 1;
  }

  lemma TailIsHeld(buf: seq<char>, p: nat, s: string)
    requires Holds(buf, p, s)
    ensures Holds(buf, p + |LineOf(s)|, TailOf(s)) && NUL !in LineOf(s)
    ensures Spells(buf, p, LineOf(s)) && LineOf(s) + TailOf(s) == s
  {
    HoldsTail(buf, p, s, LineEnd(s));
  }

  /** What reading a value achieves: the value at `start`, the unread text from `p` on. */
  ghost predicate ValueRead(
    before: seq<char>, buf: seq<char>, start: nat, p: nat, found: bool, r: Option<(string, string)>)
  {
    match r
    case None => !found
    case Some((value, rest)) =>
      && found && 1 <= start <= p && Holds(buf, start, value) && Holds(buf, p, rest)
      && (start + |value| <= p || start + |value| == p + |rest|)
      && Same(before, buf, 0, start - 1) && Same(before, buf, p, |buf|)
  }

  /** The line at `data` was the end tag: it is ended where trimmed, and its newline, at `p0`, too. */
  ghost predicate TagReached(
    before: seq<char>, buf: seq<char>, start: nat, data: nat, p0: nat, endOfLineChar: char,
    done: string, line: string, candidate: string, tail: string)
  {
    && 1 <= start <= data <= p0 < |buf| && data == start + |done| && Spells(buf, start, done) && NUL !in done
    && Holds(buf, data, candidate) && buf[p0] == NUL && candidate <= line && data + |line| <= p0
    && (done == "" ==> p0 == start + |line| && (candidate == "" <==> line == "") && Spells(before, start, line))
    && Holds(before, p0, tail) && (if tail == "" then endOfLineChar == NUL else endOfLineChar == tail[0] && IsNewLine(tail[0]))
    && Same(before, buf, 0, start) && Same(before, buf, p0 + 1, |buf|)
  }

  lemma ReachesTag(
    before: seq<char>, mid: seq<char>, buf: seq<char>, start: nat, data: nat, p: nat, done: string, rest: string,
    candidate: string, endOfLineChar: char)
    requires 1 <= start && Reading(before, mid, start, data, p, done, rest) && (done == "" ==> p == start)
    requires var line, tail := LineOf(rest), TailOf(rest);
             && candidate == (if data < p then line else TrimTag(line))
             && endOfLineChar == (if tail == "" then NUL else tail[0])
             && p + |line| < |buf| && Holds(buf, data, candidate) && buf[p + |line|] == NUL
             && Same(mid, buf, 0, data) && Same(before, buf, p + |line| + 1, |buf|)
    ensures TagReached(before, buf, start, data, p + |LineOf(rest)|, endOfLineChar, done, LineOf(rest), candidate, TailOf(rest))
  {
    hide TrimTag, LineOf, TailOf;
    assert Holds(before, p, rest);
    TailIsHeld(before, p, rest);
  }

  lemma EndsReading(before: seq<char>, buf: seq<char>, start: nat, p: nat, value: string)
    requires 1 <= start <= p < |buf| && Holds(buf, start, value) && start + |value| <= p && buf[p] == NUL
    requires Same(before, buf, 0, start) && Same(before, buf, p + 1, |buf|) && before[p] == NUL
    ensures ValueRead(before, buf, start, p, true, Some((value, "")))
  {}

  /** The line at `p0` is moved down to `data0` and, if it is not the end tag, ended by one newline. */
  method TakeLine(
    buf: array<char>, start: nat, data0: nat, p0: nat, tag: string, ghost before: seq<char>, ghost done: string, ghost rest: string)
    returns (isTag: bool, data: nat, p: nat, endOfLineChar: char)
    requires 1 <= start && Reading(before, buf[..], start, data0, p0, done, rest) && (done == "" ==> p0 == start)
    modifies buf
    ensures var line, tail := LineOf(rest), TailOf(rest);
            var candidate := if data0 < p0 then line else TrimTag(line);
            && (isTag <==> Fold(candidate) == Fold(tag))
            && (endOfLineChar == NUL <==> tail == "")
            && (if isTag then
                  TagReached(before, buf[..], start, data, p, endOfLineChar, done, line, candidate, tail)
                else if tail == "" then
                  ValueRead(before, buf[..], start, p, true, Some((done + line, "")))
                else
                  && Reading(before, buf[..], start, data, p, done + line + "\n", AfterNewLine(tail))
                  && (data < p <==> data0 < p0 || NewLineLength(tail) == 2))
  {
    hide TrimTag, Fold, LineOf, TailOf, AfterNewLine, TagReached, ValueRead;
    ghost var line, tail := LineOf(rest), TailOf(rest);
    data := data0;
    p, endOfLineChar := PlaceLine(buf, data, p0, rest);
    ghost var candidate := if data < p0 then line else TrimTag(line);
    isTag := CheckTag(buf, data, p, tag, line);
    TailIsHeld(before, p0, rest);
    assert tail != "" ==> tail[0] in tail;
    if isTag {
      ReachesTag(before, old(buf[..]), buf[..], start, data, p0, done, rest, candidate, endOfLineChar);
      return;
    }
    Joined(buf[..], start, done, line);
    if endOfLineChar == NUL {
      EndsReading(before, buf[..], start, p, done + line);
      return;
    }
    data, p := EndLine(buf, start, data, p, endOfLineChar, p - p0, before, done, line, tail);
  }

  /** The function's step, so that the loop need not look into it. */
  lemma MultiLineStep(s: string, done: string, moved: bool, tag: string)
    ensures var line, tail := LineOf(s), TailOf(s);
            var candidate := if moved then line else TrimTag(line);
            MultiLine(s, done, moved, tag) ==
            if Fold(candidate) == Fold(tag) then
              if done != "" then Some((done[..|done| - 1], AfterNewLine(tail)))
              else if line == "" then None
              else Some((if candidate == line && tail != "" then s else candidate, AfterNewLine(tail)))
            else if tail == "" then Some((done + line, ""))
            else MultiLine(AfterNewLine(tail), done + line + "\n", moved || NewLineLength(tail) == 2, tag)
  {}

  /** The end tag was found: the value ends before the newline in front of it. */
  method CloseValue(
    buf: array<char>, start: nat, data: nat, p0: nat, endOfLineChar: char,
    ghost before: seq<char>, ghost done: string, ghost line: string, ghost candidate: string, ghost tail: string)
    returns (found: bool, p: nat)
    requires TagReached(before, buf[..], start, data, p0, endOfLineChar, done, line, candidate, tail)
    modifies buf
    ensures ValueRead(before, buf[..], start, p, found,
              if done != "" then Some((done[..|done| - 1], AfterNewLine(tail)))
              else if line == "" then None
              else Some((if candidate == line && tail != "" then line + tail else candidate, AfterNewLine(tail))))
  {
    if start == p0 {
      return false, p0;
    }
    found, p := true, p0;
    assert before[p0] == if tail == "" then NUL else tail[0];
    buf[data - 1] := NUL;
    assert buf[..] == old(buf[..])[data - 1 := NUL];
    ghost var ended := buf[..];
    if endOfLineChar != NUL {
      buf[p] := endOfLineChar;
      assert buf[..] == ended[p := endOfLineChar];
      ValueStays(before, ended, buf[..], start, data, p0, done, line, candidate, tail);
      p := SkipNewLine(buf, p, tail);
    } else {
      ValueEnds(ended, start, data, done, candidate);
    }
  }

  /** The value ends at the NUL in front of the newline before the end tag ... */
  lemma ValueEnds(ended: seq<char>, start: nat, data: nat, done: string, candidate: string)
    requires 1 <= start <= data == start + |done| && data <= |ended| && ended[data - 1] == NUL && NUL !in done
    requires forall j :: start <= j < data - 1 ==> ended[j] == done[j - start]
    requires Holds(ended, data, candidate)
    ensures Holds(ended, start, if done != "" then done[..|done| - 1] else candidate)
  {
    assert forall c :: done != "" && c in done[..|done| - 1] ==> c in done;
  }

  /** ... and stays there when the newline behind the end tag is put back, unless it was the end tag
      itself that the value ran up to. */
  lemma ValueStays(
    before: seq<char>, ended: seq<char>, buf: seq<char>, start: nat, data: nat, p0: nat,
    done: string, line: string, candidate: string, tail: string)
    requires 1 <= start <= data == start + |done| && data <= p0 < |ended| && ended[data - 1] == NUL && NUL !in done
    requires forall j :: start <= j < data - 1 ==> ended[j] == done[j - start]
    requires Holds(ended, data, candidate) && candidate <= line && data + |line| <= p0
    requires tail != "" && Holds(before, p0, tail) && buf == ended[p0 := tail[0]] && Same(before, ended, p0 + 1, |ended|)
    requires done == "" ==> p0 == start + |line| && Spells(before, start, line)
    ensures Holds(buf, p0, tail) && Same(before, buf, p0, |buf|)
    ensures Holds(buf, start, if done != "" then done[..|done| - 1]
                              else if candidate == line then line + tail else candidate)
  {
    ValueEnds(ended, start, data, done, candidate);
  }

  /** `LoadMultiLineText` with an end tag. The value is the string at `start`. */
  method LoadMultiLineText(buf: array<char>, start: nat, tag: string, ghost s: string) returns (found: bool, p: nat)
    requires 1 <= start && Holds(buf[..], start, s)
    modifies buf
    ensures ValueRead(old(buf[..]), buf[..], start, p, found, MultiLine(s, "", false, tag))
  {
    hide MultiLine, Fold, TrimTag, LineOf, TailOf, AfterNewLine, Holds, Spells, Same, TagReached, ValueRead;
    ghost var before := buf[..];
    ghost var done, rest := "", s;
    var data: nat := start;
    p := start;
    StartsReading(before, start, s);
    while true
      invariant Reading(before, buf[..], start, data, p, done, rest) && (done == "" ==> p == start && rest == s)
      invariant MultiLine(rest, done, data < p, tag) == MultiLine(s, "", false, tag)
      decreases |rest|
    {
      ghost var line, tail := LineOf(rest), TailOf(rest);
      ghost var candidate := if data < p then line else TrimTag(line);
      MultiLineStep(rest, done, data < p, tag);
      LineAndTail(rest);
      var isTag: bool, endOfLineChar: char;
      isTag, data, p, endOfLineChar := TakeLine(buf, start, data, p, tag, before, done, rest);
      if isTag {
        found, p := CloseValue(buf, start, data, p, endOfLineChar, before, done, line, candidate, tail);
        return;
      }
      if endOfLineChar == NUL {
        return true, p;
      }
      done, rest := done + line + "\n", AfterNewLine(tail);
    }
  }

  lemma StartsReading(buf: seq<char>, start: nat, s: string)
    requires Holds(buf, start, s)
    ensures Reading(buf, buf, start, start, start, "", s)
  {}

  lemma LineAndTail(s: string)
    ensures LineOf(s) + TailOf(s) == s
  {}

  // ---- entries

  /** What reading a comment achieves: its text at `p0`, the text behind it at `p`. */
  ghost predicate CommentRead(before: seq<char>, buf: seq<char>, p0: nat, p: nat, text: string, rest: string) {
    && Holds(buf, p0, text) && Holds(buf, p, rest) && p0 + |text| <= p && (rest != "" ==> p0 + |text| < p)
    && Same(before, buf, 0, p0) && Same(before, buf, p, |buf|)
  }

  /** The look ahead over blank lines: where they end, and how many newlines they have. */
  method SkipBlankLines(buf: array<char>, start: nat, ghost s: string) returns (p: nat, newLines: nat)
    requires Holds(buf[..], start, s)
    ensures p == start + Spaces(s) && Holds(buf[..], p, AfterSpaces(s)) && newLines == |BlankLines(s)| <= Spaces(s)
    ensures buf[p] == if AfterSpaces(s) == "" then NUL else AfterSpaces(s)[0]
  {
    p, newLines := start, 0;
    ghost var rest := s;
    while IsSpace(buf[p])
      invariant start <= p && Holds(buf[..], p, rest) && p + Spaces(rest) == start + Spaces(s) && newLines <= p - start
      invariant AfterSpaces(rest) == AfterSpaces(s) && newLines + |BlankLines(rest)| == |BlankLines(s)|
      decreases |rest|
    {
      FirstHeld(buf[..], p, rest);
      if IsNewLine(buf[p]) {
        SpacesBehind(rest, NewLineLength(rest));
        newLines := newLines + 1;
        p := SkipNewLine(buf, p, rest);
        rest := AfterNewLine(rest);
      } else {
        SpacesBehind(rest, 1);
        HoldsTail(buf[..], p, rest, 1);
        p := p + 1;
        rest := rest[1..];
      }
    }
    FirstHeld(buf[..], p, rest);
  }

  lemma FirstHeld(buf: seq<char>, p: nat, s: string)
    requires Holds(buf, p, s)
    ensures buf[p] == if s == "" then NUL else s[0]
    ensures s != "" ==> s[0] != NUL
  {
    if s != "" { assert s[0] in s; }
  }

  lemma {:induction false} SpacesBehind(s: string, n: nat)
    requires n <= |s| && forall j :: 0 <= j < n ==> IsSpace(s[j])
    ensures Spaces(s) == n + Spaces(s[n..]) && AfterSpaces(s) == AfterSpaces(s[n..])
  {
    if n > 0 {
      SpacesBehind(s[1..], n - 1);
      assert s[1..][n - 1..] == s[n..];
    } else {
      assert s[0..] == s;
    }
  }

  lemma {:induction false} BlankLinesAreFeeds(s: string)
    ensures forall j :: 0 <= j < |BlankLines(s)| ==> BlankLines(s)[j] == '\n'
    decreases |s|
  {
    if s != "" && IsSpace(s[0]) {
      if IsNewLine(s[0]) { BlankLinesAreFeeds(AfterNewLine(s)); } else { BlankLinesAreFeeds(s[1..]); }
    }
  }

  /** Line feeds for the blank lines, behind what was read of the comment. */
  method WriteFeeds(
    buf: array<char>, start: nat, data0: nat, p: nat, newLines: nat,
    ghost before: seq<char>, ghost done: string, ghost rest: string, ghost feeds: string) returns (data: nat)
    requires data0 == start + |done| && data0 + newLines <= p && newLines == |feeds| && NUL !in done
    requires forall j :: 0 <= j < |feeds| ==> feeds[j] == '\n'
    requires Spells(buf[..], start, done) && Holds(buf[..], p, rest)
    requires Same(before, buf[..], 0, start) && Same(before, buf[..], p, buf.Length)
    modifies buf
    ensures Reading(before, buf[..], start, data, p, done + feeds, rest)
  {
    data := data0;
    var n := newLines;
    while n > 0
      invariant 0 <= n <= newLines && data == data0 + newLines - n && data <= buf.Length
      invariant Same(old(buf[..]), buf[..], 0, data0) && Same(old(buf[..]), buf[..], p, buf.Length)
      invariant forall j :: data0 <= j < data ==> buf[j] == '\n'
    {
      buf[data] := '\n';
      data, n := data + 1, n - 1;
    }
    assert Spells(buf[..], start, done + feeds);
    assert NUL !in feeds;
  }

  /** The functions' steps, so that the loop need not look into them. */
  lemma CommentStep(s: string, done: string)
    requires done != "" || (s != "" && IsComment(s[0]))
    ensures var line, tail, t := LineOf(s), TailOf(s), AfterSpaces(s);
            Comment(s, done) ==
            if s != "" && IsComment(s[0]) then
              if tail == "" then (done + line, "") else Comment(AfterNewLine(tail), done + line + "\n")
            else if t != "" && IsComment(t[0]) then Comment(t, done + BlankLines(s))
            else (done[..|done| - 1], s)
    ensures s != "" && IsComment(s[0]) && TailOf(s) != "" ==> |AfterNewLine(TailOf(s))| < |s|
    ensures !(s != "" && IsComment(s[0])) && AfterSpaces(s) != "" && IsComment(AfterSpaces(s)[0]) ==> |AfterSpaces(s)| < |s|
  {}

  lemma CommentEnds(before: seq<char>, mid: seq<char>, buf: seq<char>, start: nat, data: nat, p: nat, done: string, rest: string)
    requires Reading(before, mid, start, data, p, done, rest) && done != "" && buf == mid[data - 1 := NUL]
    ensures CommentRead(before, buf, start, p, done[..|done| - 1], rest)
  {
    assert forall c :: c in done[..|done| - 1] ==> c in done;
  }

  lemma CommentEndsText(before: seq<char>, buf: seq<char>, start: nat, p: nat, text: string)
    requires start <= p < |buf| && Holds(buf, start, text) && start + |text| <= p && buf[p] == NUL
    requires Same(before, buf, 0, start) && Same(before, buf, p + 1, |buf|) && before[p] == NUL
    ensures CommentRead(before, buf, start, p, text, "")
  {}

  /** A comment line is moved down and ended by one newline, unless the text ends with it. */
  method TakeCommentLine(
    buf: array<char>, start: nat, data0: nat, p0: nat, ghost before: seq<char>, ghost done: string, ghost rest: string)
    returns (data: nat, p: nat, endOfLineChar: char)
    requires Reading(before, buf[..], start, data0, p0, done, rest)
    modifies buf
    ensures var line, tail := LineOf(rest), TailOf(rest);
            && (endOfLineChar == NUL <==> tail == "")
            && if tail == "" then CommentRead(before, buf[..], start, p, done + line, "")
               else Reading(before, buf[..], start, data, p, done + line + "\n", AfterNewLine(tail))
  {
    hide LineOf, TailOf, AfterNewLine, CommentRead;
    ghost var line, tail := LineOf(rest), TailOf(rest);
    data := data0;
    p, endOfLineChar := PlaceLine(buf, data, p0, rest);
    TailIsHeld(before, p0, rest);
    assert tail != "" ==> tail[0] in tail;
    Joined(buf[..], start, done, line);
    if endOfLineChar == NUL {
      CommentEndsText(before, buf[..], start, p, done + line);
      return;
    }
    data, p := EndLine(buf, start, data, p, endOfLineChar, p - p0, before, done, line, tail);
  }

  /** `LoadMultiLineText` for a comment: its lines, and blank lines between them, are moved together. */
  method LoadComment(buf: array<char>, p0: nat, ghost s: string) returns (p: nat)
    requires Holds(buf[..], p0, s) && s != "" && IsComment(s[0])
    modifies buf
    ensures var (text, rest) := Comment(s, ""); CommentRead(old(buf[..]), buf[..], p0, p, text, rest)
  {
    hide Comment, LineOf, TailOf, AfterNewLine, AfterSpaces, BlankLines, IsComment, Spells, CommentRead;
    ghost var before := buf[..];
    ghost var done, rest := "", s;
    var data: nat := p0;
    p := p0;
    StartsReading(before, p0, s);
    while true
      invariant Reading(before, buf[..], p0, data, p, done, rest) && (done == "" ==> p == p0 && rest == s)
      invariant Comment(rest, done) == Comment(s, "")
      decreases |rest|
    {
      CommentStep(rest, done);
      FirstHeld(buf[..], p, rest);
      NulStartsNothing();
      if !IsComment(buf[p]) {
        var pCurr, newLines := SkipBlankLines(buf, p, rest);
        if !IsComment(buf[pCurr]) {
          break;
        }
        BlankLinesAreFeeds(rest);
        data := WriteFeeds(buf, p0, data, pCurr, newLines, before, done, AfterSpaces(rest), BlankLines(rest));
        p, done, rest := pCurr, done + BlankLines(rest), AfterSpaces(rest);
      } else {
        ghost var line, tail := LineOf(rest), TailOf(rest);
        var endOfLineChar: char;
        data, p, endOfLineChar := TakeCommentLine(buf, p0, data, p, before, done, rest);
        if endOfLineChar == NUL {
          return;
        }
        done, rest := done + line + "\n", AfterNewLine(tail);
      }
    }
    ghost var mid := buf[..];
    buf[data - 1] := NUL;
    CommentEnds(before, mid, buf[..], p0, data, p, done, rest);
  }

  lemma NulStartsNothing()
    ensures !IsComment(NUL)
  {}

  /** What reading a key and its value leaves behind: the strings at `key` and `value`, the unread text
      at `p`, and nothing changed in front of `key` or from `p` on. */
  ghost predicate ItemRead(before: seq<char>, buf: seq<char>, key: nat, found: bool, value: nat, p: nat, f: Found) {
    match f
    case ItemFound(_, item, rest) =>
      && found && key + |item.key| < p && Holds(buf, key, item.key)
      && Holds(buf, value, item.value) && Holds(buf, p, rest)
      && Same(before, buf, 0, key) && Same(before, buf, p, |buf|)
    case _ => !found
  }

  /** The section pointer: none at first, then to a string in front of `p`. */
  ghost predicate SectionAt(buf: seq<char>, pSection: Option<nat>, section: string, p: nat) {
    match pSection
    case None => section == ""
    case Some(at) => Holds(buf, at, section) && at + |section| < p
  }

  /** The pointer while entries are looked for: to a string, or to text that reaches up to `p`. */
  ghost predicate PointerAt(buf: seq<char>, pSection: Option<nat>, ptr: Pointer, p: nat) {
    match ptr
    case Ended(name) => SectionAt(buf, pSection, name, p)
    case Open(text) => pSection.Some? && Spells(buf, pSection.value, text) && pSection.value + |text| == p && NUL !in text
  }

  /** What `FindEntry` leaves behind: the strings at the pointers, the unread text at `p`, and nothing
      changed in front of `p0` or from `p` on. */
  ghost predicate EntryRead(
    before: seq<char>, buf: seq<char>, p0: nat, found: bool, pSection: Option<nat>, pKey: Option<nat>, value: nat, p: nat, f: Found)
  {
    match f
    case NoMore => !found
    case SectionFound(n, rest) =>
      && found && pKey == None && pSection.Some? && SectionAt(buf, pSection, n, p) && Holds(buf, p, rest)
      && Same(before, buf, 0, p0) && Same(before, buf, p, |buf|)
    case ItemFound(section, item, rest) =>
      && found && pKey.Some? && SectionAt(buf, pSection, section, p) && Holds(buf, pKey.value, item.key)
      && Holds(buf, value, item.value) && Holds(buf, p, rest)
      && Same(before, buf, 0, p0) && Same(before, buf, p, |buf|)
  }

  lemma PointerPast(buf: seq<char>, pSection: Option<nat>, ptr: Pointer, p: nat, s: string, i: nat)
    requires PointerAt(buf, pSection, ptr, p) && Holds(buf, p, s) && i <= |s|
    ensures PointerAt(buf, pSection, ptr.Past(s[..i]), p + i)
  {
    assert forall c :: c in s[..i] ==> c in s;
  }

  lemma PointerEnds(
    before: seq<char>, buf: seq<char>, pSection: Option<nat>, ptr: Pointer, p: nat, t: string, q: nat)
    requires PointerAt(before, pSection, ptr, p) && Same(before, buf, 0, p) && Holds(buf, p, t) && p + |t| < q
    ensures SectionAt(buf, pSection, ptr.EndedBy(t), q)
  {}

  /** The name in front of a closing bracket, and the rest of its line. */
  method ReadName(buf: array<char>, p0: nat, ghost b: string) returns (closed: bool, p: nat)
    requires Holds(buf[..], p0, b)
    modifies buf
    ensures var end := UpTo(b, ']');
            && (closed <==> end < |b| && b[end] == ']')
            && if closed then
                 && Holds(buf[..], p0, TrimEnd(b[..end])) && Holds(buf[..], p, TailOf(b[end + 1..])) && p0 + end < p
                 && Same(old(buf[..]), buf[..], 0, p0) && Same(old(buf[..]), buf[..], p, buf.Length)
               else p == p0 + end && buf[..] == old(buf[..]) && Holds(buf[..], p, b[end..])
  {
    hide UpTo, TrimEnd, TailOf, IsSpace;
    ghost var end := UpTo(b, ']');
    p := SkipTo(buf, p0, ']', b);
    HoldsTail(buf[..], p0, b, end);
    if buf[p] != ']' {
      return false, p;
    }
    HoldsTail(buf[..], p0, b, end + 1);
    assert forall c :: c in b[..end] ==> c in b;
    TrimAt(buf, p0, p, b[..end]);
    p := SkipToLineEnd(buf, p + 1, b[end + 1..]);
    closed := true;
  }

  /** The line of a value, trimmed, and the text after its newline. */
  method ReadLineValue(buf: array<char>, p0: nat, ghost v: string) returns (p: nat)
    requires Holds(buf[..], p0, v)
    modifies buf
    ensures Holds(buf[..], p0, TrimEnd(LineOf(v))) && Holds(buf[..], p, AfterNewLine(TailOf(v)))
    ensures p0 + |TrimEnd(LineOf(v))| <= p
    ensures Same(old(buf[..]), buf[..], 0, p0) && Same(old(buf[..]), buf[..], p, buf.Length)
  {
    hide LineOf, TailOf, AfterNewLine, TrimEnd;
    ghost var line, tail := LineOf(v), TailOf(v);
    TailIsHeld(buf[..], p0, v);
    p := SkipToLineEnd(buf, p0, v);
    var end := p;
    LineLength(v);
    assert buf[p] == if tail == "" then NUL else tail[0];
    if buf[p] != NUL {
      p := SkipNewLine(buf, p, tail);
    }
    assert tail == "" ==> AfterNewLine(tail) == "" && p == end;
    TrimAt(buf, p0, end, line);
  }

  lemma LineLength(v: string)
    ensures |LineOf(v)| == LineEnd(v)
    ensures NUL !in v ==> NUL !in TailOf(v)
  {}

  /** `IsMultiLineTag`. */
  method IsMultiLineTag(buf: array<char>, p: nat, ghost s: string) returns (isTag: bool)
    requires Holds(buf[..], p, s)
    ensures isTag <==> "<<<" <= s
  {
    ghost var b := buf[..];
    assert forall i :: 0 <= i < |s| ==> b[p + i] == s[i];
    assert b[p + |s|] == NUL;
    isTag := buf[p] == '<' && buf[p + 1] == '<' && buf[p + 2] == '<';
    assert isTag ==> |s| >= 3 && s[..3] == "<<<";
  }

  function AsItem(section: string, k: string, r: Option<(string, string)>): Found {
    match r
    case None => NoMore
    case Some((text, rest)) => ItemFound(section, Item(k, text), rest)
  }

  /** A value read behind its key leaves the key alone. */
  lemma KeyStays(
    before: seq<char>, mid: seq<char>, buf: seq<char>, key: nat, k: string, p0: nat, start: nat, found: bool, p: nat,
    r: Option<(string, string)>, section: string)
    requires Holds(before, key, k) && key + |k| < p0 < start
    requires Same(before, mid, 0, p0) && Same(before, mid, start, |mid|) && ValueRead(mid, buf, start, p, found, r)
    ensures ItemRead(before, buf, key, found, start, p, AsItem(section, k, r)) && (found && r.Some? ==> p0 <= p)
    ensures r.None? ==> !found
  {}

  lemma ValueStep(cfg: Config, section: string, k: string, v: string)
    ensures var text, rest := TrimEnd(LineOf(v)), AfterNewLine(TailOf(v));
            FindValue(cfg, section, k, v) ==
            if cfg.multiLine && "<<<" <= text then AsItem(section, k, MultiLine(rest, "", false, text[3..]))
            else ItemFound(section, Item(k, text), rest)
  {}

  /** The value of a key: the rest of its line, or the lines up to the end tag given there. */
  method ReadValue(buf: array<char>, cfg: Config, p0: nat, key: nat, ghost section: string, ghost k: string, ghost v: string)
    returns (found: bool, value: nat, p: nat)
    requires Holds(buf[..], p0, v) && Holds(buf[..], key, k) && key + |k| < p0
    modifies buf
    ensures ItemRead(old(buf[..]), buf[..], key, found, value, p, FindValue(cfg, section, k, v))
    ensures found ==> p0 <= p
  {
    hide MultiLine, LineOf, TailOf, AfterNewLine, TrimEnd, FindValue, ItemRead, ValueRead, AsItem;
    ghost var before, text, rest := buf[..], TrimEnd(LineOf(v)), AfterNewLine(TailOf(v));
    ValueStep(cfg, section, k, v);
    found, value := true, p0;
    p := ReadLineValue(buf, p0, v);
    var isTag := IsMultiLineTag(buf, value, text);
    if cfg.multiLine && isTag {
      HoldsTail(buf[..], value, text, 3);
      var tag := StringAt(buf, value + 3, text[3..]);
      ghost var mid := buf[..];
      value := p;
      found, p := LoadMultiLineText(buf, value, tag, rest);
      KeyStays(before, mid, buf[..], key, k, p0, value, found, p, MultiLine(rest, "", false, text[3..]), section);
    } else {
      LineStays(before, buf[..], key, section, k, p0, text, p, rest);
    }
  }

  lemma LineStays(
    before: seq<char>, buf: seq<char>, key: nat, section: string, k: string, p0: nat, text: string, p: nat, rest: string)
    requires Holds(before, key, k) && key + |k| < p0 <= p && Holds(buf, p0, text) && Holds(buf, p, rest)
    requires Same(before, buf, 0, p0) && Same(before, buf, p, |buf|)
    ensures ItemRead(before, buf, key, true, p0, p, ItemFound(section, Item(k, text), rest))
  {}

  /** A key and its value, or a line or the part of one that is to be skipped. */
  method ReadKey(buf: array<char>, cfg: Config, name: nat, ghost ptr: Pointer, ghost a: string)
    returns (skip: bool, found: bool, value: nat, p: nat)
    requires Holds(buf[..], name, a)
    modifies buf
    ensures var end := UpTo(a, '=');
            if end == |a| || a[end] != '=' then
              skip && p == name + end && buf[..] == old(buf[..]) && Holds(buf[..], p, a[end..])
            else if end == 0 then
              skip && p == name + LineEnd(a) && buf[..] == old(buf[..]) && Holds(buf[..], p, TailOf(a))
            else
              var key := TrimEnd(a[..end]);
              && !skip
              && ItemRead(old(buf[..]), buf[..], name, found, value, p,
                          FindValue(cfg, ptr.EndedBy(key), key, AfterBlanks(a[end + 1..])))
  {
    hide FindValue, UpTo, TrimEnd, TailOf, AfterBlanks, ItemRead, IsSpace, LineEnd;
    ghost var end := UpTo(a, '=');
    skip, found, value := true, false, name;
    p := SkipTo(buf, name, '=', a);
    HoldsTail(buf[..], name, a, end);
    if buf[p] != '=' {
      return;
    }
    if name == p {
      p := SkipToLineEnd(buf, p, a);
      return;
    }
    skip := false;
    hide Holds, Same;
    ghost var before, k, v := buf[..], TrimEnd(a[..end]), AfterBlanks(a[end + 1..]);
    p := EndKey(buf, name, p, a);
    ghost var mid := buf[..];
    found, value, p := ReadValue(buf, cfg, p, name, ptr.EndedBy(k), k, v);
    KeyTrimmed(before, mid, buf[..], name, name + end + 1, found, value, p, FindValue(cfg, ptr.EndedBy(k), k, v));
  }

  /** The key in front of the equals sign at `p0` is trimmed, and the blanks behind the sign skipped. */
  method EndKey(buf: array<char>, name: nat, p0: nat, ghost a: string) returns (p: nat)
    requires Holds(buf[..], name, a) && p0 == name + UpTo(a, '=') && UpTo(a, '=') < |a|
    modifies buf
    ensures var end := UpTo(a, '=');
            && Holds(buf[..], name, TrimEnd(a[..end])) && Holds(buf[..], p, AfterBlanks(a[end + 1..]))
            && name + |TrimEnd(a[..end])| < p && p0 + 1 <= p
            && Same(old(buf[..]), buf[..], 0, name) && Same(old(buf[..]), buf[..], p0 + 1, buf.Length)
  {
    hide UpTo, TrimEnd, AfterBlanks, IsSpace;
    ghost var end := UpTo(a, '=');
    assert forall c :: c in a[..end] ==> c in a;
    HoldsTail(buf[..], name, a, end + 1);
    TrimAt(buf, name, p0, a[..end]);
    p := SkipBlanks(buf, p0 + 1, a[end + 1..]);
  }

  lemma KeyTrimmed(
    before: seq<char>, mid: seq<char>, buf: seq<char>, name: nat, end: nat, found: bool, value: nat, p: nat, f: Found)
    requires ItemRead(mid, buf, name, found, value, p, f)
    requires Same(before, mid, 0, name) && Same(before, mid, end, |mid|) && (found ==> end <= p)
    ensures ItemRead(before, buf, name, found, value, p, f)
  {}

  /** The function's step, so that the loop need not look into it. */
  lemma FindStep(cfg: Config, ptr0: Pointer, s: string)
    ensures var a, ptr := AfterSpaces(s), ptr0.Past(s[..Spaces(s)]);
            if a == "" then Find(cfg, ptr0, s) == NoMore
            else if IsComment(a[0]) then
              var (text, rest) := Comment(a, "");
              Find(cfg, ptr0, s) == Find(cfg, Ended(ptr.EndedBy(text)), rest) && |rest| < |s|
            else if a[0] == '[' then
              var b := AfterSpaces(a[1..]);
              var end := UpTo(b, ']');
              && |b| < |s|
              && Find(cfg, ptr0, s) == if end == |b| || b[end] != ']' then Find(cfg, Open(b[..end]), b[end..])
                                       else SectionFound(TrimEnd(b[..end]), TailOf(b[end + 1..]))
            else
              var end := UpTo(a, '=');
              if end == |a| || a[end] != '=' then
                Find(cfg, ptr0, s) == Find(cfg, ptr.Past(a[..end]), a[end..]) && |a[end..]| < |s|
              else if end == 0 then
                Find(cfg, ptr0, s) == Find(cfg, ptr.Past(LineOf(a)), TailOf(a)) && |TailOf(a)| < |s|
              else
                var key := TrimEnd(a[..end]);
                Find(cfg, ptr0, s) == FindValue(cfg, ptr.EndedBy(key), key, AfterBlanks(a[end + 1..]))
  {
    hide FindValue, TrimEnd, AfterBlanks, IsComment, TailOf, LineOf, AfterSpaces, UpTo, Comment, Pointer.Past, Pointer.EndedBy;
    var a, ptr := AfterSpaces(s), ptr0.Past(s[..Spaces(s)]);
    assert Find(cfg, ptr0, s) == FindAt(cfg, ptr, a);
    if a != "" {
      TailIsShorter(a);
      if !IsComment(a[0]) {
        if a[0] == '[' {
          assert FindAt(cfg, ptr, a) == FindName(cfg, AfterSpaces(a[1..]));
        } else {
          StartsNoLine(a);
        }
      }
    }
  }

  lemma TailIsShorter(a: string)
    requires a != "" && !IsSpace(a[0])
    ensures |TailOf(a)| < |a|
  {
    assert LineEnd(a) > 0;
  }

  lemma StartsNoLine(a: string)
    requires a != "" && !IsSpace(a[0])
    ensures var end := UpTo(a, '='); end == 0 ==> a[end] == '='
  {}

  /** A key found behind the pointer ends the string there. */
  lemma KeyRead(
    before: seq<char>, mid: seq<char>, buf: seq<char>, p0: nat, key: nat, a: string, pSection: Option<nat>, ptr: Pointer,
    found: bool, value: nat, p: nat, k: string, f: Found)
    requires Looking(before, mid, p0, key, a) && PointerAt(mid, pSection, ptr, key)
    requires ItemRead(mid, buf, key, found, value, p, f)
    requires f.NoMore? || (f.ItemFound? && f.section == ptr.EndedBy(k) && f.item.key == k)
    ensures EntryRead(before, buf, p0, found, pSection, Some(key), value, p, f)
  {
    if f.ItemFound? { PointerEnds(mid, buf, pSection, ptr, key, k, p); }
  }

  /** While entries are looked for: `rest` is unread at `p`, and neither it nor what is in front of `p0`
      has changed. */
  ghost predicate Looking(before: seq<char>, buf: seq<char>, p0: nat, p: nat, rest: string) {
    p0 <= p && Holds(buf, p, rest) && Same(before, buf, 0, p0) && Same(before, buf, p, |buf|)
  }

  lemma LooksFrom(before: seq<char>, buf: seq<char>, p0: nat, p: nat, rest: string)
    requires Looking(before, buf, p0, p, rest)
    ensures p0 <= p < |buf| == |before| && Holds(buf, p, rest) && buf[p] == if rest == "" then NUL else rest[0]
    ensures rest != "" ==> rest[0] != NUL
  {
    FirstHeld(buf, p, rest);
  }

  lemma LooksOn(before: seq<char>, buf: seq<char>, p0: nat, p: nat, rest: string, i: nat)
    requires Looking(before, buf, p0, p, rest) && i <= |rest|
    ensures Looking(before, buf, p0, p + i, rest[i..])
  {
    HoldsTail(buf, p, rest, i);
  }

  lemma LooksFirst(buf: seq<char>, pSection: Option<nat>, section: string, p: nat, s: string)
    requires Holds(buf, p, s) && SectionAt(buf, pSection, section, p)
    ensures Looking(buf, buf, p, p, s) && PointerAt(buf, pSection, Ended(section), p)
  {}

  /** A comment read behind the pointer ends the string there. */
  lemma CommentEndsPointer(
    before: seq<char>, mid: seq<char>, buf: seq<char>, p0: nat, p1: nat, pSection: Option<nat>, ptr: Pointer,
    p: nat, text: string, a: string, rest: string)
    requires Looking(before, mid, p0, p1, a) && CommentRead(mid, buf, p1, p, text, rest) && PointerAt(mid, pSection, ptr, p1)
    ensures Looking(before, buf, p0, p, rest)
    ensures rest != "" ==> PointerAt(buf, pSection, Ended(ptr.EndedBy(text)), p)
  {
    if rest != "" { PointerEnds(mid, buf, pSection, ptr, p1, text, p); }
  }

  /** A header at `p0`: its name ended, or the pointer on open text up to the end of its line. */
  method ReadHeader(buf: array<char>, p0: nat, ghost b: string) returns (closed: bool, p: nat)
    requires Holds(buf[..], p0, b)
    modifies buf
    ensures var end := UpTo(b, ']');
            && (closed <==> end < |b| && b[end] == ']')
            && if closed then EntryRead(old(buf[..]), buf[..], p0, true, Some(p0), None, 0, p,
                                        SectionFound(TrimEnd(b[..end]), TailOf(b[end + 1..])))
               else p == p0 + end && buf[..] == old(buf[..]) && PointerAt(buf[..], Some(p0), Open(b[..end]), p)
  {
    hide TrimEnd, TailOf, UpTo;
    closed, p := ReadName(buf, p0, b);
    if !closed {
      StartsOpen(buf[..], p0, b, UpTo(b, ']'));
    }
  }

  /** A comment is passed over, and ends open text behind itself. */
  method PassComment(
    buf: array<char>, p1: nat, ghost before: seq<char>, ghost p0: nat, ghost pSection: Option<nat>, ghost ptr: Pointer, ghost a: string)
    returns (p: nat)
    requires Looking(before, buf[..], p0, p1, a) && PointerAt(buf[..], pSection, ptr, p1) && a != "" && IsComment(a[0])
    modifies buf
    ensures var (text, rest) := Comment(a, "");
            && Looking(before, buf[..], p0, p, rest)
            && (rest != "" ==> PointerAt(buf[..], pSection, Ended(ptr.EndedBy(text)), p))
  {
    hide Comment, CommentRead, PointerAt, Looking;
    ghost var mid := buf[..];
    LooksFrom(before, mid, p0, p1, a);
    p := LoadComment(buf, p1, a);
    CommentEndsPointer(before, mid, buf[..], p0, p1, pSection, ptr, p, Comment(a, "").0, a, Comment(a, "").1);
  }

  /** A header is read, or passed over with the pointer moved to it. */
  method PassHeader(buf: array<char>, p1: nat, ghost before: seq<char>, ghost p0: nat, ghost a: string)
    returns (closed: bool, at: nat, p: nat)
    requires Looking(before, buf[..], p0, p1, a) && a != ""
    modifies buf
    ensures var b := AfterSpaces(a[1..]);
            var end := UpTo(b, ']');
            && (closed <==> end < |b| && b[end] == ']')
            && if closed then
                 EntryRead(before, buf[..], p0, true, Some(at), None, 0, p, SectionFound(TrimEnd(b[..end]), TailOf(b[end + 1..])))
               else Looking(before, buf[..], p0, p, b[end..]) && PointerAt(buf[..], Some(at), Open(b[..end]), p)
  {
    hide UpTo, AfterSpaces, TrimEnd, TailOf, PointerAt, EntryRead, Looking, Holds, Same;
    ghost var mid, b := buf[..], AfterSpaces(a[1..]);
    LooksOn(before, mid, p0, p1, a, 1);
    LooksFrom(before, mid, p0, p1 + 1, a[1..]);
    LooksOn(before, mid, p0, p1 + 1, a[1..], Spaces(a[1..]));
    AfterSpacesIs(a[1..]);
    at := SkipSpaces(buf, p1 + 1, a[1..]);
    ghost var end := UpTo(b, ']');
    closed, p := ReadHeader(buf, at, b);
    if closed {
      HeaderEnds(before, mid, buf[..], p0, at, b, p, TrimEnd(b[..end]), TailOf(b[end + 1..]));
    } else {
      LooksOn(before, mid, p0, at, b, end);
    }
  }

  /** A key and its value are read, or a line that has none is passed over. */
  method PassKey(
    buf: array<char>, cfg: Config, p1: nat,
    ghost before: seq<char>, ghost p0: nat, ghost pSection: Option<nat>, ghost ptr: Pointer, ghost a: string)
    returns (skip: bool, found: bool, value: nat, p: nat)
    requires Looking(before, buf[..], p0, p1, a) && PointerAt(buf[..], pSection, ptr, p1)
    modifies buf
    ensures var end := UpTo(a, '=');
            if end == |a| || a[end] != '=' then
              skip && Looking(before, buf[..], p0, p, a[end..]) && PointerAt(buf[..], pSection, ptr.Past(a[..end]), p)
            else if end == 0 then
              skip && Looking(before, buf[..], p0, p, TailOf(a)) && PointerAt(buf[..], pSection, ptr.Past(LineOf(a)), p)
            else
              var key := TrimEnd(a[..end]);
              && !skip
              && EntryRead(before, buf[..], p0, found, pSection, Some(p1), value, p,
                           FindValue(cfg, ptr.EndedBy(key), key, AfterBlanks(a[end + 1..])))
  {
    hide UpTo, TrimEnd, TailOf, LineOf, LineEnd, AfterBlanks, FindValue, PointerAt, EntryRead, ItemRead, Looking, Holds, Same,
         Pointer.Past, Pointer.EndedBy;
    ghost var mid, end := buf[..], UpTo(a, '=');
    LooksFrom(before, mid, p0, p1, a);
    skip, found, value, p := ReadKey(buf, cfg, p1, ptr, a);
    if skip {
      ghost var n := if end == 0 && end < |a| && a[end] == '=' then LineEnd(a) else end;
      PointerPast(mid, pSection, ptr, p1, a, n);
      LooksOn(before, mid, p0, p1, a, n);
      LineOfIs(a);
    } else {
      ghost var key := TrimEnd(a[..end]);
      KeyRead(before, mid, buf[..], p0, p1, a, pSection, ptr, found, value, p, key,
              FindValue(cfg, ptr.EndedBy(key), key, AfterBlanks(a[end + 1..])));
    }
  }

  lemma NothingFound(before: seq<char>, buf: seq<char>, p0: nat, pSection: Option<nat>, pKey: Option<nat>, value: nat, p: nat)
    ensures EntryRead(before, buf, p0, false, pSection, pKey, value, p, NoMore)
  {}

  /** `FindEntry`, with its effects on the buffer and the section pointer. */
  method FindEntry(buf: array<char>, cfg: Config, pSection0: Option<nat>, p0: nat, ghost section: string, ghost s: string)
    returns (found: bool, pSection: Option<nat>, pKey: Option<nat>, value: nat, p: nat)
    requires Holds(buf[..], p0, s) && SectionAt(buf[..], pSection0, section, p0)
    modifies buf
    ensures EntryRead(old(buf[..]), buf[..], p0, found, pSection, pKey, value, p, Find(cfg, Ended(section), s))
  {
    hide Find, FindValue, UpTo, AfterSpaces, TrimEnd, TailOf, LineOf, AfterBlanks, Comment,
         Pointer.Past, Pointer.EndedBy, PointerAt, Looking, SectionAt, EntryRead, Holds, Same;
    ghost var before, rest, ptr := buf[..], s, Ended(section);
    pSection, pKey, value, p := pSection0, None, 0, p0;
    LooksFirst(before, pSection, section, p, s);
    LooksFrom(before, buf[..], p0, p, rest);
    while buf[p] != NUL
      invariant p < buf.Length && Looking(before, buf[..], p0, p, rest) && (buf[p] == NUL <==> rest == "")
      invariant rest != "" ==> PointerAt(buf[..], pSection, ptr, p)
      invariant Find(cfg, ptr, rest) == Find(cfg, Ended(section), s)
      decreases |rest|
    {
      LooksFrom(before, buf[..], p0, p, rest);
      ghost var a := AfterSpaces(rest);
      FindStep(cfg, ptr, rest);
      PointerPast(buf[..], pSection, ptr, p, rest, Spaces(rest));
      LooksOn(before, buf[..], p0, p, rest, Spaces(rest));
      AfterSpacesIs(rest);
      ptr := ptr.Past(rest[..Spaces(rest)]);
      p := SkipSpaces(buf, p, rest);
      if buf[p] == NUL {
        LooksFrom(before, buf[..], p0, p, a);
        NothingFound(before, buf[..], p0, pSection, None, value, p);
        return false, pSection, None, value, p;
      }
      if IsComment(buf[p]) {
        p := PassComment(buf, p, before, p0, pSection, ptr, a);
        ptr, rest := Ended(ptr.EndedBy(Comment(a, "").0)), Comment(a, "").1;
      } else if buf[p] == '[' {
        var closed: bool, at: nat;
        closed, at, p := PassHeader(buf, p, before, p0, a);
        pSection := Some(at);
        if closed {
          return true, pSection, None, 0, p;
        }
        ghost var b := AfterSpaces(a[1..]);
        ptr, rest := Open(b[..UpTo(b, ']')]), b[UpTo(b, ']')..];
      } else {
        pKey := Some(p);
        var skip: bool;
        skip, found, value, p := PassKey(buf, cfg, p, before, p0, pSection, ptr, a);
        if !skip {
          return found, pSection, pKey, value, p;
        }
        ghost var end := UpTo(a, '=');
        if end < |a| && a[end] == '=' {
          ptr, rest := ptr.Past(LineOf(a)), TailOf(a);
        } else {
          ptr, rest := ptr.Past(a[..end]), a[end..];
        }
      }
      LooksFrom(before, buf[..], p0, p, rest);
    }
    FindStep(cfg, ptr, rest);
    NoSpaces();
    NothingFound(before, buf[..], p0, pSection, pKey, value, p);
    found := false;
  }

  lemma NoSpaces()
    ensures AfterSpaces("") == ""
  {}

  lemma AfterSpacesIs(s: string)
    ensures AfterSpaces(s) == s[Spaces(s)..]
  {}

  lemma HeaderEnds(
    before: seq<char>, mid: seq<char>, buf: seq<char>, p0: nat, p1: nat, b: string, p: nat, n: string, rest: string)
    requires Looking(before, mid, p0, p1, b)
    requires EntryRead(mid, buf, p1, true, Some(p1), None, 0, p, SectionFound(n, rest))
    ensures EntryRead(before, buf, p0, true, Some(p1), None, 0, p, SectionFound(n, rest))
  {}

  lemma StartsOpen(buf: seq<char>, at: nat, b: string, end: nat)
    requires Holds(buf, at, b) && end <= |b|
    ensures PointerAt(buf, Some(at), Open(b[..end]), at + end)
  {
    assert forall c :: c in b[..end] ==> c in b;
  }

  lemma LineOfIs(a: string)
    ensures LineOf(a) == a[..LineEnd(a)] && TailOf(a) == a[LineEnd(a)..]
  {}
}
