/** The character tests, trims and the case-insensitive order that SimpleIni.h works with. */
module IniText {
  predicate IsNewLine(c: char) {
    c == '\n' || c == '\r'
  }

  predicate IsSpace(c: char) {
    c == ' ' || c == '\t' || IsNewLine(c)
  }

  predicate IsComment(c: char) {
    c == ';' || c == '#'
  }

  predicate OneLine(s: string) {
    forall c :: c in s ==> !IsNewLine(c)
  }

  /** How far it is to the first `c` or newline, or to the end of the text. */
  function UpTo(s: string, c: char): (i: nat)
    ensures i <= |s| && (i < |s| ==> s[i] == c || IsNewLine(s[i]))
    ensures forall j :: 0 <= j < i ==> s[j] != c && !IsNewLine(s[j])
  {
    if s == "" || s[0] == c || IsNewLine(s[0]) then 0 else 1 + UpTo(s[1..], c)
  }

  function LineEnd(s: string): (i: nat)
    ensures i <= |s| && (i < |s| ==> IsNewLine(s[i]))
    ensures forall j :: 0 <= j < i ==> !IsNewLine(s[j])
  {
    UpTo(s, '\n')
  }

  /** The first line, and the text from its newline on. */
  function LineOf(s: string): (line: string)
    ensures OneLine(line)
  {
    s[..LineEnd(s)]
  }

  function TailOf(s: string): (tail: string)
    ensures tail != "" ==> IsNewLine(tail[0])
    ensures |tail| <= |s|
  {
    s[LineEnd(s)..]
  }

  /** How many space characters (newlines included) the text starts with. */
  function Spaces(s: string): (i: nat)
    ensures i <= |s| && (i < |s| ==> !IsSpace(s[i])) && forall j :: 0 <= j < i ==> IsSpace(s[j])
  {
    if s == "" || !IsSpace(s[0]) then 0 else 1 + Spaces(s[1..])
  }

  function AfterSpaces(s: string): (t: string)
    ensures |t| <= |s| && (t != "" ==> !IsSpace(t[0]))
  {
    s[Spaces(s)..]
  }

  /** How many space characters of its line the text starts with. */
  function Blanks(s: string): (i: nat)
    ensures i <= |s| && (i < |s| ==> !IsSpace(s[i]) || IsNewLine(s[i]))
    ensures forall j :: 0 <= j < i ==> IsSpace(s[j]) && !IsNewLine(s[j])
  {
    if s == "" || !IsSpace(s[0]) || IsNewLine(s[0]) then 0 else 1 + Blanks(s[1..])
  }

  function AfterBlanks(s: string): (t: string)
    ensures |t| <= |s| && (t != "" ==> !IsSpace(t[0]) || IsNewLine(t[0]))
  {
    s[Blanks(s)..]
  }

  function TrimEnd(s: string): (t: string)
    ensures t <= s && (t != "" ==> !IsSpace(t[|t| - 1]))
    ensures forall j :: |t| <= j < |s| ==> IsSpace(s[j])
  {
    if s == "" || !IsSpace(s[|s| - 1]) then s else TrimEnd(s[..|s| - 1])
  }

  /** Trimming that never takes the first character, as the search for an end tag does it. */
  function TrimTag(s: string): (t: string)
    ensures t <= s && (s != "" ==> t != "") && (|t| > 1 ==> !IsSpace(t[|t| - 1]))
    ensures forall j :: |t| <= j < |s| ==> IsSpace(s[j])
  {
    if |s| <= 1 || !IsSpace(s[|s| - 1]) then s else TrimTag(s[..|s| - 1])
  }

  // ---- what these functions promise leaves only one result

  lemma UpToUnique(s: string, c: char, n: nat)
    requires n <= |s| && (n < |s| ==> s[n] == c || IsNewLine(s[n]))
    requires forall j :: 0 <= j < n ==> s[j] != c && !IsNewLine(s[j])
    ensures UpTo(s, c) == n
  {}

  lemma TrimEndUnique(s: string, n: nat)
    requires n <= |s| && (n > 0 ==> !IsSpace(s[n - 1])) && forall j :: n <= j < |s| ==> IsSpace(s[j])
    ensures TrimEnd(s) == s[..n]
  {}

  lemma SpacesUnique(s: string, n: nat)
    requires n <= |s| && (n < |s| ==> !IsSpace(s[n])) && forall j :: 0 <= j < n ==> IsSpace(s[j])
    ensures Spaces(s) == n
  {}

  lemma TrimTagUnique(s: string, n: nat)
    requires n <= |s| && (s != "" ==> n > 0) && (n > 1 ==> !IsSpace(s[n - 1])) && forall j :: n <= j < |s| ==> IsSpace(s[j])
    ensures TrimTag(s) == s[..n]
  {}

  /** A newline is one character, or a carriage return and line feed together. */
  function NewLineLength(s: string): nat
    requires s != "" && IsNewLine(s[0])
  {
    if s[0] == '\r' && |s| > 1 && s[1] == '\n' then 2 else 1
  }

  function AfterNewLine(s: string): (t: string)
    ensures |t| < |s| || t == s == ""
    requires s != "" ==> IsNewLine(s[0])
  {
    if s == "" then "" else s[NewLineLength(s)..]
  }

  // ---- the case-insensitive order

  function Lower(c: char): char {
    if 'A' <= c <= 'Z' then (c as int - 'A' as int + 'a' as int) as char else c
  }

  function Fold(s: string): string {
    if s == "" then "" else [Lower(s[0])] + Fold(s[1..])
  }

  lemma {:induction false} FoldLength(s: string)
    ensures |Fold(s)| == |s|
  {
    if s != "" { FoldLength(s[1..]); }
  }

  /** `SI_GenericNoCase`. */
  predicate Less(l: string, r: string) {
    if l == "" || r == "" then r != ""
    else if Lower(l[0]) != Lower(r[0]) then Lower(l[0]) < Lower(r[0])
    else Less(l[1..], r[1..])
  }

  method IsLess(l: string, r: string) returns (less: bool)
    ensures less <==> Less(l, r)
  {
    var i := 0;
    while i < |l| && i < |r|
      invariant i <= |l| && i <= |r| && (Less(l[i..], r[i..]) <==> Less(l, r))
    {
      if Lower(l[i]) != Lower(r[i]) {
        return Lower(l[i]) < Lower(r[i]);
      }
      assert l[i..][1..] == l[i + 1..] && r[i..][1..] == r[i + 1..];
      i := i + 1;
    }
    return i < |r|;
  }

  // ---- it is a strict weak order whose ties are the case variants

  lemma {:induction false} LessAsymmetric(l: string, r: string)
    ensures Less(l, r) ==> !Less(r, l)
  {
    if l != "" && r != "" { LessAsymmetric(l[1..], r[1..]); }
  }

  lemma {:induction false} LessTransitive(a: string, b: string, c: string)
    requires Less(a, b) && Less(b, c)
    ensures Less(a, c)
  {
    if a != "" && b != "" && c != "" && Lower(a[0]) == Lower(b[0]) == Lower(c[0]) {
      LessTransitive(a[1..], b[1..], c[1..]);
    }
  }

  lemma {:induction false} TiesFoldAlike(l: string, r: string)
    ensures !Less(l, r) && !Less(r, l) <==> Fold(l) == Fold(r)
  {
    if l != "" && r != "" {
      TiesFoldAlike(l[1..], r[1..]);
      assert Fold(l)[1..] == Fold(l[1..]) && Fold(r)[1..] == Fold(r[1..]);
      assert Fold(l) == [Lower(l[0])] + Fold(l[1..]) && Fold(r) == [Lower(r[0])] + Fold(r[1..]);
    }
  }

  /** The same character, or the capital and the small form of one ASCII letter. */
  predicate SameLetter(a: char, b: char) {
    a == b || ('A' <= a <= 'Z' && b as int - a as int == 32) || ('A' <= b <= 'Z' && a as int - b as int == 32)
  }

  /** Names that differ in the case of ASCII letters only. */
  predicate CaseVariants(l: string, r: string) {
    |l| == |r| && forall i :: 0 <= i < |l| ==> SameLetter(l[i], r[i])
  }

  lemma {:induction false} FoldsAreVariants(l: string, r: string)
    ensures Fold(l) == Fold(r) <==> CaseVariants(l, r)
  {
    if l != "" && r != "" {
      var f, g := Fold(l), Fold(r);
      FoldsAreVariants(l[1..], r[1..]);
      assert f[0] == Lower(l[0]) && g[0] == Lower(r[0]) && f[1..] == Fold(l[1..]) && g[1..] == Fold(r[1..]);
      assert f == [f[0]] + f[1..] && g == [g[0]] + g[1..];
      VariantsStep(l, r);
    }
  }

  lemma VariantsStep(l: string, r: string)
    requires l != "" && r != ""
    ensures CaseVariants(l, r) <==> SameLetter(l[0], r[0]) && CaseVariants(l[1..], r[1..])
  {
    if SameLetter(l[0], r[0]) && CaseVariants(l[1..], r[1..]) {
      forall i | 0 <= i < |l| ensures SameLetter(l[i], r[i]) { assert i > 0 ==> SameLetter(l[1..][i - 1], r[1..][i - 1]); }
    }
  }

  /** Neither of two names is less exactly when they differ in the case of ASCII letters only. */
  lemma TiesAreCaseVariants(l: string, r: string)
    ensures !Less(l, r) && !Less(r, l) <==> CaseVariants(l, r)
  {
    TiesFoldAlike(l, r);
    FoldsAreVariants(l, r);
  }

  /** A character's code, with the capital letters of ASCII moved to the small ones. */
  function SmallCode(c: char): int {
    if 'A' <= c <= 'Z' then c as int + 32 else c as int
  }

  /** Where two names first differ in more than case, the smaller code decides; a name that goes on is greater. */
  lemma {:induction false} FirstDifferenceDecides(l: string, r: string, n: nat)
    requires n <= |l| && n <= |r| && CaseVariants(l[..n], r[..n])
    requires n < |l| && n < |r| ==> !SameLetter(l[n], r[n])
    ensures Less(l, r) <==> n < |r| && (n == |l| || SmallCode(l[n]) < SmallCode(r[n]))
  {
    if n > 0 {
      VariantsStep(l[..n], r[..n]);
      assert l[..n][1..] == l[1..][..n - 1] && r[..n][1..] == r[1..][..n - 1];
      FirstDifferenceDecides(l[1..], r[1..], n - 1);
    }
  }

  /** Replacing a name by a case variant never changes an outcome, as ordered maps require. */
  lemma TiesCompareAlike(a: string, b: string, c: string)
    requires CaseVariants(a, b)
    ensures (Less(a, c) <==> Less(b, c)) && (Less(c, a) <==> Less(c, b))
  {
    FoldsAreVariants(a, b);
    LessByFold(a, c);
    LessByFold(b, c);
    LessByFold(c, a);
    LessByFold(c, b);
  }

  lemma {:induction false} LessByFold(l: string, r: string)
    ensures Less(l, r) <==> Less(Fold(l), Fold(r))
  {
    if l != "" && r != "" {
      LessByFold(l[1..], r[1..]);
      assert Fold(l)[1..] == Fold(l[1..]) && Fold(r)[1..] == Fold(r[1..]);
    }
  }
}
