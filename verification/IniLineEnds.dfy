/** Comments and values of several lines with line ends of any kind: each line end counts as one newline. */
module IniLineEnds {
  import opened Wrappers
  import opened IniText
  import opened IniSyntax
  import opened IniLaws
  import opened IniLines

  /** A line and the newline behind it. */
  datatype Ended = Ended(text: string, end: string)

  /** The lines as they stand in the text. */
  function Raw(lines: seq<Ended>): string {
    if lines == [] then "" else lines[0].text + (lines[0].end + Raw(lines[1..]))
  }

  /** The lines with one newline each. */
  function Plainly(lines: seq<Ended>): string {
    if lines == [] then "" else lines[0].text + "\n" + Plainly(lines[1..])
  }

  predicate IsEnd(end: string) {
    end == "\n" || end == "\r" || end == "\r\n"
  }

  /** One-line texts with newlines of any kind, none of which runs into the next one. */
  ghost predicate GoodLines(lines: seq<Ended>, rest: string) {
    forall i :: 0 <= i < |lines| ==>
      && OneLine(lines[i].text) && IsEnd(lines[i].end)
      && (lines[i].end == "\r" ==> !("\n" <= Raw(lines[i + 1..]) + rest))
  }

  lemma FirstLine(lines: seq<Ended>, rest: string)
    requires lines != [] && GoodLines(lines, rest)
    ensures var s, tail := Raw(lines) + rest, Raw(lines[1..]) + rest;
            && LineOf(s) == lines[0].text && TailOf(s) == lines[0].end + tail && TailOf(s) != ""
            && AfterNewLine(TailOf(s)) == tail && NewLineLength(TailOf(s)) == |lines[0].end|
    ensures GoodLines(lines[1..], rest)
    ensures IsEnd(lines[0].end) && (lines[0].end == "\r" ==> !("\n" <= Raw(lines[1..]) + rest))
  {
    var line, end, tail := lines[0].text, lines[0].end, Raw(lines[1..]) + rest;
    assert Raw(lines) + rest == line + (end + tail);
    LineIs(line, end + tail);
    EndTaken(end, tail);
    forall i | 0 <= i < |lines[1..]|
      ensures var l := lines[1..][i];
              OneLine(l.text) && IsEnd(l.end) && (l.end == "\r" ==> !("\n" <= Raw(lines[1..][i + 1..]) + rest))
    {
      assert lines[1..][i] == lines[i + 1] && lines[1..][i + 1..] == lines[i + 2..];
    }
  }

  lemma EndTaken(end: string, tail: string)
    requires IsEnd(end) && (end == "\r" ==> !("\n" <= tail))
    ensures end + tail != "" && IsNewLine((end + tail)[0])
    ensures AfterNewLine(end + tail) == tail && NewLineLength(end + tail) == |end|
  {
    if end == "\r" && tail != "" {
      assert tail[..1] == [tail[0]];
    }
  }

  // ---- values of several lines

  /** A value is read with one newline for each line end, whatever kinds they are, up to the first line that is
      the tag. */
  lemma {:induction false} ValueOfLines(lines: seq<Ended>, done: string, moved: bool, tag: string, rest: string)
    requires IsTag(tag) && GoodLines(lines, tag + ("\n" + rest)) && done + Plainly(lines) != ""
    requires forall i :: 0 <= i < |lines| ==> Fold(lines[i].text) != Fold(tag) && Fold(TrimTag(lines[i].text)) != Fold(tag)
    ensures var v := done + Plainly(lines);
            MultiLine(Raw(lines) + (tag + ("\n" + rest)), done, moved, tag) == Some((v[..|v| - 1], rest))
    decreases |lines|
  {
    hide Fold, TrimTag, LineOf, TailOf, GoodLines, MultiLine, NewLineLength, AfterNewLine;
    var behind := tag + ("\n" + rest);
    if lines == [] {
      LastLine(done, moved, tag, rest);
      assert Raw(lines) + behind == behind && done + "" == done;
    } else {
      FirstLine(lines, behind);
      var s, next := Raw(lines) + behind, done + lines[0].text + "\n";
      MultiLineStep(s, done, moved, tag);
      assert next + Plainly(lines[1..]) == done + Plainly(lines);
      ValueOfLines(lines[1..], next, moved || |lines[0].end| == 2, tag, rest);
    }
  }

  lemma LastLine(done: string, moved: bool, tag: string, rest: string)
    requires IsTag(tag) && done != ""
    ensures MultiLine(tag + ("\n" + rest), done, moved, tag) == Some((done[..|done| - 1], rest))
  {
    LineIs(tag, "\n" + rest);
    TrimTagIs(tag);
    AfterFeed(rest);
  }

  lemma MultiLineStep(s: string, done: string, moved: bool, tag: string)
    requires Fold(LineOf(s)) != Fold(tag) && Fold(TrimTag(LineOf(s))) != Fold(tag) && TailOf(s) != ""
    ensures MultiLine(s, done, moved, tag)
         == MultiLine(AfterNewLine(TailOf(s)), done + LineOf(s) + "\n", moved || NewLineLength(TailOf(s)) == 2, tag)
  {
    hide LineOf, TailOf, TrimTag, Fold;
  }

  // ---- comments

  /** What is read of a comment: its lines with one newline each, and the text behind it. */
  lemma {:induction false} CommentOfLines(lines: seq<Ended>, done: string, rest: string)
    requires GoodLines(lines, rest) && done + Plainly(lines) != ""
    requires forall i :: 0 <= i < |lines| ==> lines[i].text != "" && IsComment(lines[i].text[0])
    requires AfterSpaces(rest) != "" ==> !IsComment(AfterSpaces(rest)[0])
    ensures var t := done + Plainly(lines); done != "" || lines != [] ==> Comment(Raw(lines) + rest, done) == (t[..|t| - 1], rest)
    decreases |lines|
  {
    hide LineOf, TailOf;
    var s := Raw(lines) + rest;
    if lines == [] {
      assert s == rest && done + "" == done;
      NoComment(rest);
    } else {
      FirstLine(lines, rest);
      var next := done + lines[0].text + "\n";
      assert s[0] == lines[0].text[0];
      assert next + Plainly(lines[1..]) == done + Plainly(lines);
      CommentOfLines(lines[1..], next, rest);
    }
  }

  lemma NoComment(rest: string)
    requires AfterSpaces(rest) != "" ==> !IsComment(AfterSpaces(rest)[0])
    ensures rest != "" ==> !IsComment(rest[0])
  {}

  /** Empty lines between comment lines are part of the comment. */
  lemma CommentGoesOn(ends: seq<Ended>, rest: string, done: string)
    requires done != "" && GoodLines(ends, rest) && forall i :: 0 <= i < |ends| ==> ends[i].text == ""
    requires rest != "" && IsComment(rest[0])
    ensures Comment(Raw(ends) + rest, done) == Comment(rest, done + Plainly(ends))
  {
    hide AfterSpaces, BlankLines;
    EmptyLines(ends, rest);
    var s := Raw(ends) + rest;
    if ends == [] {
      assert s == rest && done + "" == done;
    } else {
      FirstEnd(ends);
      hide Raw, Plainly;
      CommentStep(s, done);
    }
  }

  lemma CommentStep(s: string, done: string)
    requires done != "" && s != "" && !IsComment(s[0]) && AfterSpaces(s) != "" && IsComment(AfterSpaces(s)[0])
    ensures Comment(s, done) == Comment(AfterSpaces(s), done + BlankLines(s))
  {
    hide AfterSpaces, BlankLines;
  }

  lemma BlankStep(s: string)
    requires s != "" && IsNewLine(s[0])
    ensures BlankLines(s) == "\n" + BlankLines(AfterNewLine(s))
  {
    hide AfterNewLine;
  }

  lemma FirstEnd(ends: seq<Ended>)
    requires ends != [] && ends[0].text == "" && IsEnd(ends[0].end)
    ensures Raw(ends) != "" && IsNewLine(Raw(ends)[0])
  {}

  lemma {:induction false} EmptyLines(ends: seq<Ended>, rest: string)
    requires GoodLines(ends, rest) && forall i :: 0 <= i < |ends| ==> ends[i].text == ""
    requires rest != "" && IsComment(rest[0])
    ensures BlankLines(Raw(ends) + rest) == Plainly(ends) && AfterSpaces(Raw(ends) + rest) == rest
    decreases |ends|
  {
    hide GoodLines, AfterSpaces, BlankLines, AfterNewLine, IsEnd;
    if ends == [] {
      assert Raw(ends) + rest == rest;
      NothingBlank(rest);
    } else {
      var end, tail := ends[0].end, Raw(ends[1..]) + rest;
      FirstLine(ends, rest);
      assert Raw(ends) + rest == end + tail;
      EmptyLines(ends[1..], rest);
      OneEmptyLine(end, tail);
    }
  }

  lemma NothingBlank(rest: string)
    requires rest != "" && IsComment(rest[0])
    ensures BlankLines(rest) == "" && AfterSpaces(rest) == rest
  {}

  lemma OneEmptyLine(end: string, tail: string)
    requires IsEnd(end) && (end == "\r" ==> !("\n" <= tail))
    ensures BlankLines(end + tail) == "\n" + BlankLines(tail) && AfterSpaces(end + tail) == AfterSpaces(tail)
  {
    hide AfterSpaces, BlankLines, AfterNewLine;
    EndTaken(end, tail);
    SpacesAhead(end, tail);
    BlankStep(end + tail);
  }
}
