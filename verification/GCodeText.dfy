/** What G-code text means to the print buffer: the list of lines a printer
    would be sent, and the canonical text that stores such a list.
 */
module GCodeText {

  predicate IsBreak(c: char) {
    c == '\n' || c == '\r'
  }

  /** Where the line that holds position `from` ends: its break, or the end of the text. */
  function BreakFrom(s: string, from: nat): (n: nat)
    requires from <= |s|
    ensures from <= n <= |s|
    ensures forall i :: from <= i < n ==> !IsBreak(s[i])
    ensures n < |s| ==> IsBreak(s[n])
    decreases |s| - from
  {
    if from == |s| || IsBreak(s[from]) then from else BreakFrom(s, from + 1)
  }

  /** Length of the first line, its break not counted. */
  function LineEnd(s: string): (n: nat)
    ensures n <= |s|
  {
    BreakFrom(s, 0)
  }

  /** A semicolon starts a comment, unless macros are kept and an '@' follows. */
  predicate CommentAt(s: string, i: nat, keep: bool)
    requires i < |s|
  {
    s[i] == ';' && !(keep && i + 1 < |s| && s[i + 1] == '@')
  }

  function CommentFrom(line: string, from: nat, keep: bool): (n: nat)
    requires from <= |line|
    ensures from <= n <= |line|
    ensures forall i :: from <= i < n ==> !CommentAt(line, i, keep)
    ensures n < |line| ==> CommentAt(line, n, keep)
    decreases |line| - from
  {
    if from == |line| || CommentAt(line, from, keep) then from else CommentFrom(line, from + 1, keep)
  }

  /** Position of the first comment. */
  function CommentStart(line: string, keep: bool): (n: nat)
    ensures n <= |line|
  {
    CommentFrom(line, 0, keep)
  }

  /** The printable part of one line, as a list of no or one line. */
  function OneLine(line: string, keep: bool): seq<string> {
    var n := CommentStart(line, keep);
    if n == 0 then [] else [line[..n]]
  }

  /** The printable lines of a text: split at CR or LF, cut each line at its
      first comment, drop the empty ones. */
  function CleanLines(s: string, keep: bool): seq<string>
    decreases |s|
  {
    var n := LineEnd(s);
    if n == |s| then OneLine(s, keep)
    else OneLine(s[..n], keep) + CleanLines(s[n + 1..], keep)
  }

  /** The text that stores a list of lines, each terminated. */
  function Render(ls: seq<string>): (t: string)
    ensures ls != [] ==> |t| > 0 && t[|t| - 1] == '\n'
  {
    if ls == [] then [] else ls[0] + "\n" + Render(ls[1..])
  }

  /** A line as the buffer stores it. */
  predicate CleanLine(l: string, keep: bool) {
    && l != []
    && (forall i :: 0 <= i < |l| ==> !IsBreak(l[i]))
    && (forall i :: 0 <= i < |l| ==> !CommentAt(l, i, keep))
  }

  predicate AllClean(ls: seq<string>, keep: bool) {
    forall i :: 0 <= i < |ls| ==> CleanLine(ls[i], keep)
  }

  predicate NoReturns(t: string) {
    forall i :: 0 <= i < |t| ==> t[i] != '\r'
  }

  predicate NoComments(t: string, keep: bool) {
    forall i :: 0 <= i < |t| ==> !CommentAt(t, i, keep)
  }

  predicate NoBlankLines(t: string) {
    forall i :: 0 <= i < |t| - 1 ==> !(t[i] == '\n' && t[i + 1] == '\n')
  }

  /** Text in stored form, described without reference to any line list. */
  predicate Canonical(t: string, keep: bool) {
    && NoReturns(t)
    && NoComments(t, keep)
    && NoBlankLines(t)
    && (t != [] ==> t[0] != '\n' && t[|t| - 1] == '\n')
  }

  /** The first break decides how a text splits. */
  lemma FirstLine(s: string, n: nat, keep: bool)
    requires n <= |s|
    requires forall i :: 0 <= i < n ==> !IsBreak(s[i])
    requires n < |s| ==> IsBreak(s[n])
    ensures LineEnd(s) == n
    ensures n < |s| ==> CleanLines(s, keep) == OneLine(s[..n], keep) + CleanLines(s[n + 1..], keep)
    ensures n == |s| ==> CleanLines(s, keep) == OneLine(s, keep)
  {
    var m := BreakFrom(s, 0);
    assert m == n;
  }

  /** The first comment decides what a line prints. */
  lemma FirstComment(line: string, k: nat, keep: bool)
    requires k <= |line|
    requires forall i :: 0 <= i < k ==> !CommentAt(line, i, keep)
    requires k < |line| ==> CommentAt(line, k, keep)
    ensures OneLine(line, keep) == if k == 0 then [] else [line[..k]]
  {
    var m := CommentFrom(line, 0, keep);
    assert m == k;
  }

  lemma CommentFree(line: string, keep: bool)
    requires NoComments(line, keep)
    ensures OneLine(line, keep) == if line == [] then [] else [line]
  {
    FirstComment(line, |line|, keep);
    assert line[..|line|] == line;
  }

  lemma NoText(keep: bool)
    ensures CleanLines([], keep) == []
  {
    FirstLine([], 0, keep);
    CommentFree([], keep);
  }

  // ---------------------------------------------------------------- splitting

  /** A line break separates independent texts. */
  lemma {:induction false} SplitAtBreak(u: string, c: char, v: string, keep: bool)
    requires IsBreak(c)
    ensures CleanLines(u + [c] + v, keep) == CleanLines(u, keep) + CleanLines(v, keep)
    decreases |u|
  {
    hide CleanLines;
    var s := u + [c] + v;
    var n := BreakFrom(u, 0);
    FirstLine(u, n, keep);
    FirstLine(s, n, keep);
    if n < |u| {
      assert s[..n] == u[..n] && s[n + 1..] == u[n + 1..] + [c] + v;
      SplitAtBreak(u[n + 1..], c, v, keep);
    } else {
      assert s[n + 1..] == v && s[..n] == u;
    }
  }

  /** Text up to and including a break, and what follows it, clean separately. */
  lemma {:induction false} SplitAfterBreak(u: string, v: string, keep: bool)
    requires u == [] || IsBreak(u[|u| - 1])
    ensures CleanLines(u + v, keep) == CleanLines(u, keep) + CleanLines(v, keep)
  {
    hide CleanLines;
    NoText(keep);
    if u == [] {
      assert u + v == v;
    } else {
      var w, c := u[..|u| - 1], u[|u| - 1];
      assert u == w + [c] + [];
      assert u + v == w + [c] + v;
      SplitAtBreak(w, c, v, keep);
      SplitAtBreak(w, c, [], keep);
    }
  }

  // ------------------------------------------------- what each rewrite preserves

  function ReturnsToNewlines(s: string): (t: string)
    ensures |t| == |s|
    ensures forall i :: 0 <= i < |s| ==> t[i] == if s[i] == '\r' then '\n' else s[i]
  {
    seq(|s|, i requires 0 <= i < |s| => if s[i] == '\r' then '\n' else s[i])
  }

  lemma {:induction false} ReturnsDoNotMatter(s: string, keep: bool)
    ensures CleanLines(ReturnsToNewlines(s), keep) == CleanLines(s, keep)
    decreases |s|
  {
    hide CleanLines;
    var t := ReturnsToNewlines(s);
    var n := BreakFrom(s, 0);
    FirstLine(s, n, keep);
    FirstLine(t, n, keep);
    if n < |s| {
      assert t[..n] == s[..n];
      assert t[n + 1..] == ReturnsToNewlines(s[n + 1..]);
      ReturnsDoNotMatter(s[n + 1..], keep);
    } else {
      assert t == s;
    }
  }

  /** Cutting a line at any of its comments leaves what precedes the first one. */
  lemma CutAtComment(line: string, k: nat, keep: bool)
    requires k < |line| && CommentAt(line, k, keep)
    ensures OneLine(line[..k], keep) == OneLine(line, keep)
  {
    var n := CommentFrom(line, 0, keep);
    assert n <= k;
    assert forall i :: 0 <= i < k ==> CommentAt(line[..k], i, keep) == CommentAt(line, i, keep);
    FirstComment(line, n, keep);
    FirstComment(line[..k], n, keep);
    assert line[..k][..n] == line[..n];
  }

  lemma EraseInFirstLine(s: string, p: nat, e: nat, keep: bool)
    requires p < e <= |s| && CommentAt(s, p, keep)
    requires forall i :: 0 <= i < e ==> !IsBreak(s[i])
    requires e < |s| ==> IsBreak(s[e])
    ensures CleanLines(s[..p] + s[e..], keep) == CleanLines(s, keep)
  {
    hide CleanLines;
    var t, line := s[..p] + s[e..], s[..e];
    FirstLine(s, e, keep);
    FirstLine(t, p, keep);
    assert CommentAt(line, p, keep) && line[..p] == s[..p] == t[..p];
    CutAtComment(line, p, keep);
    if e < |s| {
      assert t[p + 1..] == s[e + 1..];
    } else {
      assert line == s && t == t[..p];
    }
  }

  /** Erasing a comment up to its line end keeps every printable line. */
  lemma {:induction false} EraseComment(s: string, p: nat, e: nat, keep: bool)
    requires p < e <= |s| && CommentAt(s, p, keep)
    requires forall i :: p <= i < e ==> !IsBreak(s[i])
    requires e < |s| ==> IsBreak(s[e])
    ensures CleanLines(s[..p] + s[e..], keep) == CleanLines(s, keep)
    decreases |s|
  {
    hide CleanLines;
    var t := s[..p] + s[e..];
    var n := BreakFrom(s, 0);
    if n < p {
      var s', t' := s[n + 1..], t[n + 1..];
      assert t[..n] == s[..n] && t[n] == s[n];
      assert t' == s'[..p - n - 1] + s'[e - n - 1..];
      FirstLine(s, n, keep);
      FirstLine(t, n, keep);
      EraseComment(s', p - n - 1, e - n - 1, keep);
    } else {
      EraseInFirstLine(s, p, e, keep);
    }
  }

  /** A blank line more or less makes no difference. */
  lemma CollapseNewlines(s: string, i: nat, keep: bool)
    requires i + 1 < |s| && s[i] == '\n' && s[i + 1] == '\n'
    ensures CleanLines(s[..i] + "\n" + s[i + 2..], keep) == CleanLines(s, keep)
  {
    hide CleanLines;
    NoText(keep);
    var u, v := s[..i], s[i + 2..];
    assert s == u + "\n" + ("\n" + v);
    assert "\n" + v == [] + "\n" + v;
    SplitAtBreak(u, '\n', "\n" + v, keep);
    SplitAtBreak([], '\n', v, keep);
    SplitAtBreak(u, '\n', v, keep);
  }

  lemma DropLeadingNewline(s: string, keep: bool)
    requires s != [] && s[0] == '\n'
    ensures CleanLines(s[1..], keep) == CleanLines(s, keep)
  {
    hide CleanLines;
    NoText(keep);
    assert s == [] + [s[0]] + s[1..];
    SplitAtBreak([], '\n', s[1..], keep);
  }

  lemma AddTrailingNewline(s: string, keep: bool)
    ensures CleanLines(s + "\n", keep) == CleanLines(s, keep)
  {
    hide CleanLines;
    NoText(keep);
    assert s + "\n" == s + "\n" + [];
    SplitAtBreak(s, '\n', [], keep);
  }

  // ------------------------------------------------------------ canonical text

  lemma {:induction false} RenderAppend(a: seq<string>, b: seq<string>)
    ensures Render(a + b) == Render(a) + Render(b)
  {
    if a == [] {
      assert a + b == b;
    } else {
      assert (a + b)[0] == a[0] && (a + b)[1..] == a[1..] + b;
      RenderAppend(a[1..], b);
    }
  }

  lemma CanonicalTail(t: string, n: nat, keep: bool)
    requires Canonical(t, keep) && n < |t| && IsBreak(t[n])
    ensures Canonical(t[n + 1..], keep)
  {
    var rest := t[n + 1..];
    assert forall i :: 0 <= i < |rest| ==> rest[i] == t[i + n + 1];
    assert forall i :: 0 <= i < |rest| ==> CommentAt(rest, i, keep) == CommentAt(t, i + n + 1, keep);
  }

  /** Canonical text is exactly the rendering of its printable lines. */
  lemma {:induction false} CanonicalIsRendered(t: string, keep: bool)
    requires Canonical(t, keep)
    ensures t == Render(CleanLines(t, keep))
    decreases |t|
  {
    hide CleanLines;
    var n := BreakFrom(t, 0);
    FirstLine(t, n, keep);
    if t == [] {
      CommentFree(t, keep);
    } else {
      assert 0 < n < |t|;
      var line, rest := t[..n], t[n + 1..];
      assert forall i :: 0 <= i < n ==> CommentAt(line, i, keep) == CommentAt(t, i, keep);
      CommentFree(line, keep);
      CanonicalTail(t, n, keep);
      CanonicalIsRendered(rest, keep);
      assert ([line] + CleanLines(rest, keep))[1..] == CleanLines(rest, keep);
      assert t == line + "\n" + rest;
    }
  }

  lemma OneLineIsClean(line: string, keep: bool)
    requires forall i :: 0 <= i < |line| ==> !IsBreak(line[i])
    ensures AllClean(OneLine(line, keep), keep)
  {
    var k := CommentFrom(line, 0, keep);
    FirstComment(line, k, keep);
    var l := line[..k];
    forall i | 0 <= i < k
      ensures !CommentAt(l, i, keep)
    {
      assert !CommentAt(line, i, keep);
      if i + 1 == k && k < |line| {
        assert CommentAt(line, k, keep);
      }
    }
  }

  /** Every printable line is clean: not empty, no break, no comment. */
  lemma {:induction false} CleanLinesAreClean(s: string, keep: bool)
    ensures AllClean(CleanLines(s, keep), keep)
    decreases |s|
  {
    hide CleanLines;
    var n := BreakFrom(s, 0);
    FirstLine(s, n, keep);
    OneLineIsClean(s[..n], keep);
    if n < |s| {
      CleanLinesAreClean(s[n + 1..], keep);
    } else {
      assert s[..n] == s;
    }
  }

  /** Storing clean lines and cleaning the stored text gives the lines back. */
  lemma {:induction false} CleanRendered(ls: seq<string>, keep: bool)
    requires AllClean(ls, keep)
    ensures CleanLines(Render(ls), keep) == ls
  {
    hide CleanLines;
    NoText(keep);
    if ls == [] {
    } else {
      var l, t := ls[0], Render(ls[1..]);
      CleanRendered(ls[1..], keep);
      SplitAtBreak(l, '\n', t, keep);
      assert l[..|l|] == l;
      assert CleanLine(l, keep);
      FirstLine(l, |l|, keep);
      CommentFree(l, keep);
      assert [l] + ls[1..] == ls;
    }
  }

  /** Cleaning text that is clean already changes nothing. */
  lemma CleaningTwice(s: string, keep: bool)
    ensures CleanLines(Render(CleanLines(s, keep)), keep) == CleanLines(s, keep)
  {
    hide CleanLines;
    CleanLinesAreClean(s, keep);
    CleanRendered(CleanLines(s, keep), keep);
  }

  /** Text cleaned without macros is also clean where macros are allowed. */
  lemma CleanIsLaxClean(ls: seq<string>, keep: bool)
    requires AllClean(ls, keep)
    ensures AllClean(ls, true)
  {
    forall j | 0 <= j < |ls|
      ensures CleanLine(ls[j], true)
    {
      assert CleanLine(ls[j], keep);
      assert forall i :: 0 <= i < |ls[j]| && CommentAt(ls[j], i, true) ==> CommentAt(ls[j], i, keep);
    }
  }

  // ------------------------------------------------------- in terms of characters

  /** What is printed of a text without line breaks: what precedes its first ';', or, where macros are kept, its
      first ';' that no '@' follows. */
  lemma PrintablePart(l: string, n: nat, keep: bool)
    requires '\n' !in l && '\r' !in l
    requires n <= |l| && forall i {:trigger l[i]} :: 0 <= i < n ==> l[i] != ';' || (keep && i + 1 < |l| && l[i + 1] == '@')
    requires n < |l| ==> l[n] == ';' && !(keep && n + 1 < |l| && l[n + 1] == '@')
    ensures CleanLines(l, keep) == if n == 0 then [] else [l[..n]]
  {
    forall i | 0 <= i < |l|
      ensures !IsBreak(l[i])
    {
      assert l[i] in l;
    }
    FirstLine(l, |l|, keep);
    FirstComment(l, n, keep);
  }

  /** Line feeds and carriage returns, and nothing else, separate lines. With PrintablePart, this says what the
      printable lines of any text are. */
  lemma BreaksSplit(u: string, v: string, keep: bool)
    ensures CleanLines(u + "\n" + v, keep) == CleanLines(u, keep) + CleanLines(v, keep)
    ensures CleanLines(u + "\r" + v, keep) == CleanLines(u, keep) + CleanLines(v, keep)
  {
    SplitAtBreak(u, '\n', v, keep);
    SplitAtBreak(u, '\r', v, keep);
  }

  /** No printable line is empty or holds a line break; without macros none holds a ';', with macros an '@'
      follows each. */
  lemma LinesHoldNoComments(s: string, keep: bool, j: nat)
    requires j < |CleanLines(s, keep)|
    ensures var l := CleanLines(s, keep)[j];
            && l != "" && '\n' !in l && '\r' !in l
            && (!keep ==> ';' !in l)
            && forall i :: 0 <= i < |l| && l[i] == ';' ==> i + 1 < |l| && l[i + 1] == '@'
  {
    hide CleanLines;
    CleanLinesAreClean(s, keep);
    var l := CleanLines(s, keep)[j];
    assert CleanLine(l, keep);
    assert forall i :: 0 <= i < |l| ==> !IsBreak(l[i]) && !CommentAt(l, i, keep);
  }

  /** Where macros are kept, a line in which every ';' starts one is printed whole. */
  lemma MacroLineIsKept(l: string)
    requires l != "" && '\n' !in l && '\r' !in l
    requires forall i :: 0 <= i < |l| && l[i] == ';' ==> i + 1 < |l| && l[i + 1] == '@'
    ensures CleanLines(l, true) == [l]
  {
    PrintablePart(l, |l|, true);
    assert l[..|l|] == l;
  }
}
