/** Facts about the stored form of line lists: lengths, newline searches, newline counts. */
module StoredText {
  import opened GCodeText
  import opened Strings

  /** The stored form of clean lines is canonical. */
  lemma {:induction false} RenderIsCanonical(ls: seq<string>, keep: bool)
    requires AllClean(ls, keep)
    ensures Canonical(Render(ls), keep)
  {
    if ls != [] {
      RenderIsCanonical(ls[1..], keep);
      assert CleanLine(ls[0], keep);
      LineThenCanonical(ls[0], Render(ls[1..]), keep);
    }
  }

  lemma LineThenCanonical(l: string, rest: string, keep: bool)
    requires CleanLine(l, keep) && Canonical(rest, keep)
    ensures Canonical(l + "\n" + rest, keep)
  {
    var t := l + "\n" + rest;
    assert forall i :: 0 <= i < |l| ==> t[i] == l[i] && !IsBreak(t[i]);
    assert t[|l|] == '\n';
    assert forall i :: |l| < i < |t| ==> t[i] == rest[i - |l| - 1];
    forall i | 0 <= i < |t|
      ensures !CommentAt(t, i, keep)
    {
      if i < |l| {
        assert !CommentAt(l, i, keep);
      } else if i > |l| {
        assert !CommentAt(rest, i - |l| - 1, keep);
      }
    }
  }

  /** Canonical texts join into a canonical text. */
  lemma CanonicalJoin(a: string, b: string, keep: bool)
    requires Canonical(a, keep) && Canonical(b, keep)
    ensures Canonical(a + b, keep)
  {
    var t := a + b;
    assert forall i :: 0 <= i < |t| ==> t[i] == if i < |a| then a[i] else b[i - |a|];
    forall i | 0 <= i < |t|
      ensures !CommentAt(t, i, keep)
    {
      if i < |a| {
        assert !CommentAt(a, i, keep);
      } else {
        assert !CommentAt(b, i - |a|, keep);
      }
    }
  }

  lemma {:induction false} RenderedLength(s: string, keep: bool)
    ensures |Render(CleanLines(s, keep))| <= |s| + if s != [] && !IsBreak(s[|s| - 1]) then 1 else 0
    decreases |s|
  {
    hide CleanLines;
    var n := BreakFrom(s, 0);
    FirstLine(s, n, keep);
    var k := CommentFrom(s[..n], 0, keep);
    FirstComment(s[..n], k, keep);
    assert s[..|s|] == s;
    if n < |s| {
      var rest := s[n + 1..];
      RenderedLength(rest, keep);
      RenderAppend(OneLine(s[..n], keep), CleanLines(rest, keep));
    }
  }

  /** Text that is stored as it is but for its CRs, and that lacks only its last newline. */
  predicate LacksNewlineOnly(s: string, keep: bool) {
    s != [] && Canonical(ReturnsToNewlines(s) + "\n", keep)
  }

  /** Cleaning makes text longer, by one byte then, exactly if only the last newline is missing. */
  lemma {:induction false} LongestRendering(s: string, keep: bool)
    ensures |Render(CleanLines(s, keep))| == |s| + 1 <==> LacksNewlineOnly(s, keep)
    decreases |s|
  {
    hide *;
    LacksMeans(s, keep);
    if LacksNewlineOnly(s, keep) {
      ReturnsDoNotMatter(s, keep);
      AddTrailingNewline(ReturnsToNewlines(s), keep);
      CanonicalIsRendered(ReturnsToNewlines(s) + "\n", keep);
    } else if |Render(CleanLines(s, keep))| == |s| + 1 {
      var n := BreakFrom(s, 0);
      var rest := if n < |s| then s[n + 1..] else [];
      LongLine(s, n, rest, keep);
      if n < |s| {
        ReturnsAround(s, n);
        LongestRendering(rest, keep);
        LacksMeans(rest, keep);
        LineThenCanonical(s[..n], ReturnsToNewlines(rest) + "\n", keep);
      } else {
        NothingToReturn(s, n);
        NoneIsCanonical(keep);
        LineThenCanonical(s[..n], [], keep);
      }
    }
  }

  lemma LacksMeans(s: string, keep: bool)
    ensures LacksNewlineOnly(s, keep) <==> s != [] && Canonical(ReturnsToNewlines(s) + "\n", keep)
    ensures |ReturnsToNewlines(s)| == |s|
  {
    hide Canonical;
  }

  lemma NoneIsCanonical(keep: bool)
    ensures Canonical([], keep)
  {
  }

  lemma NothingToReturn(s: string, n: nat)
    requires n == |s| && forall i :: 0 <= i < |s| ==> !IsBreak(s[i])
    ensures ReturnsToNewlines(s) + "\n" == s[..n] + "\n" + []
  {
    hide ReturnsToNewlines;
    assert ReturnsToNewlines(s) == s == s[..n];
  }

  lemma ReturnsAround(s: string, n: nat)
    requires n < |s| && IsBreak(s[n]) && forall i :: 0 <= i < n ==> !IsBreak(s[i])
    ensures ReturnsToNewlines(s) + "\n" == s[..n] + "\n" + (ReturnsToNewlines(s[n + 1..]) + "\n")
  {
    hide ReturnsToNewlines;
    var t, u := ReturnsToNewlines(s) + "\n", s[..n] + "\n" + (ReturnsToNewlines(s[n + 1..]) + "\n");
    forall i | 0 <= i < |t|
      ensures t[i] == u[i]
    {
      if i > n && i < |s| {
        assert u[i] == ReturnsToNewlines(s[n + 1..])[i - n - 1];
      }
    }
  }

  /** In text that cleaning makes longer, the first line is clean and the rest grows as well. */
  lemma LongLine(s: string, n: nat, rest: string, keep: bool)
    requires n == BreakFrom(s, 0) && rest == if n < |s| then s[n + 1..] else []
    requires |Render(CleanLines(s, keep))| == |s| + 1
    ensures CleanLine(s[..n], keep)
    ensures n < |s| ==> |Render(CleanLines(rest, keep))| == |rest| + 1
  {
    hide *;
    FirstLine(s, n, keep);
    NoBreaksBefore(s, n);
    OneLineLength(s[..n], keep);
    if n < |s| {
      AtMostOneMore(rest, keep);
      RenderAppend(OneLine(s[..n], keep), CleanLines(rest, keep));
    } else {
      assert s[..n] == s;
    }
  }

  lemma NoBreaksBefore(s: string, n: nat)
    requires n == BreakFrom(s, 0)
    ensures forall i :: 0 <= i < n ==> !IsBreak(s[..n][i])
  {
  }

  lemma AtMostOneMore(s: string, keep: bool)
    ensures |Render(CleanLines(s, keep))| <= |s| + 1
  {
    hide *;
    RenderedLength(s, keep);
  }

  lemma OneLineLength(line: string, keep: bool)
    requires forall i :: 0 <= i < |line| ==> !IsBreak(line[i])
    ensures |Render(OneLine(line, keep))| <= |line| + 1
    ensures |Render(OneLine(line, keep))| == |line| + 1 ==> CleanLine(line, keep)
  {
    var k := CommentFrom(line, 0, keep);
    FirstComment(line, k, keep);
    hide OneLine;
    RenderOne(line[..k]);
  }

  /** Dropping the first n lines of stored text drops their rendering. */
  lemma RenderPrefix(ls: seq<string>, n: nat)
    requires n <= |ls|
    ensures Render(ls) == Render(ls[..n]) + Render(ls[n..])
  {
    assert ls == ls[..n] + ls[n..];
    RenderAppend(ls[..n], ls[n..]);
  }

  /** The n-th line inside stored text, and the newline that ends it. */
  lemma RenderNext(ls: seq<string>, n: nat)
    requires n < |ls|
    ensures Render(ls[..n + 1]) == Render(ls[..n]) + (ls[n] + "\n")
    ensures Render(ls) == Render(ls[..n]) + (ls[n] + "\n") + Render(ls[n + 1..])
  {
    RenderOne(ls[n]);
    RenderAppend(ls[..n], [ls[n]]);
    assert ls[..n + 1] == ls[..n] + [ls[n]];
    RenderPrefix(ls, n + 1);
  }

  lemma RenderOne(l: string)
    ensures Render([l]) == l + "\n"
  {
    assert [l][1..] == [];
    assert l + "\n" + [] == l + "\n";
  }

  lemma FindInMiddle(t: string, u: string, l: string, v: string)
    requires t == u + (l + "\n") + v
    requires forall i :: 0 <= i < |l| ==> l[i] != '\n'
    ensures Find(t, '\n', |u|) == |u| + |l|
  {
    var p := |u| + |l|;
    assert t[p] == '\n';
    assert forall i :: |u| <= i < p ==> t[i] == l[i - |u|];
  }

  /** The newline search that follows n whole lines finds the end of the next one, if there is one. */
  lemma NextNewline(ls: seq<string>, n: nat, keep: bool)
    requires AllClean(ls, keep) && n <= |ls|
    ensures |Render(ls[..n])| <= |Render(ls)|
    ensures Find(Render(ls), '\n', |Render(ls[..n])|) == if n < |ls| then |Render(ls[..n + 1])| - 1 else NPOS
  {
    if n < |ls| {
      RenderNext(ls, n);
      assert CleanLine(ls[n], keep);
      FindInMiddle(Render(ls), Render(ls[..n]), ls[n], Render(ls[n + 1..]));
    } else {
      assert ls[..n] == ls;
    }
  }

  lemma {:induction false} CountShift(s: string, v: string, c: char, p: nat, i: nat)
    requires p <= |s| && s[p..] == v && i <= |v|
    ensures Count(s, c, p + i) == Count(v, c, i)
    decreases |v| - i
  {
    if i < |v| {
      assert s[p + i] == v[i];
      CountShift(s, v, c, p, i + 1);
    }
  }

  /** Stored text has one newline per line. */
  lemma {:induction false} CountLines(ls: seq<string>, keep: bool)
    requires AllClean(ls, keep)
    ensures Count(Render(ls), '\n', 0) == |ls|
  {
    if ls != [] {
      var l, t := ls[0], Render(ls);
      assert t[|l| + 1..] == Render(ls[1..]);
      CountShift(t, Render(ls[1..]), '\n', |l| + 1, 0);
      CountLines(ls[1..], keep);
      assert CleanLine(l, keep);
      CountToNewline(t, |l|, 0);
    }
  }

  lemma {:induction false} CountToNewline(t: string, n: nat, i: nat)
    requires i <= n < |t| && t[n] == '\n'
    requires forall j :: i <= j < n ==> t[j] != '\n'
    ensures Count(t, '\n', i) == 1 + Count(t, '\n', n + 1)
    decreases n - i
  {
    if i < n {
      CountToNewline(t, n, i + 1);
    }
  }
}
