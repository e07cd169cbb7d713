/** The string rewriting of `cleanupGCode`: the loops, and why each step keeps
    the printable lines of the part that is being cleaned. */
module Cleanup {
  import opened GCodeText
  import opened Strings

  /** A single comment and nothing else, not even a line break. */
  predicate LoneComment(s: string, keep: bool) {
    s != [] && CommentAt(s, 0, keep) && forall i :: 0 <= i < |s| ==> !IsBreak(s[i])
  }

  lemma LoneCommentMeans(s: string, keep: bool)
    ensures LoneComment(s, keep) <==>
            s != "" && s[0] == ';' && !(keep && |s| > 1 && s[1] == '@') && '\n' !in s && '\r' !in s
  {
    assert forall i :: 0 <= i < |s| ==> s[i] in s;
  }

  /** The comment loop keeps everything before `pos`, erases every comment after it, and
      stops early exactly when nothing is left of the whole text. */
  method RemoveComments(text: string, pos: nat, keep: bool) returns (buffer: string, emptied: bool)
    requires pos <= |text| && NoReturns(text[pos..])
    ensures emptied <==> pos == 0 && LoneComment(text, keep)
    ensures emptied ==> buffer == []
    ensures pos <= |buffer| && buffer[..pos] == text[..pos]
    ensures CleanLines(buffer[pos..], keep) == CleanLines(text[pos..], keep)
    ensures NoReturns(buffer[pos..]) && NoComments(buffer[pos..], keep)
  {
    hide CleanLines;
    buffer := text;
    emptied := false;
    var posComment := pos;
    while Find(buffer, ';', posComment) != NPOS
      invariant pos <= posComment <= |buffer|
      invariant buffer[..pos] == text[..pos]
      invariant CleanLines(buffer[pos..], keep) == CleanLines(text[pos..], keep)
      invariant NoReturns(buffer[pos..])
      invariant forall i :: pos <= i < posComment ==> !CommentAt(buffer, i, keep)
      invariant pos == 0 ==> (LoneComment(text, keep) <==> LoneComment(buffer, keep))
      decreases |buffer|, |buffer| - posComment
    {
      posComment := Find(buffer, ';', posComment);
      if keep && posComment < |buffer| - 1 && buffer[posComment + 1] == '@' {
        posComment := posComment + 1;
        continue;
      }
      var posCommentEnd := Find(buffer, '\n', posComment);
      var e := if posCommentEnd == NPOS then |buffer| else posCommentEnd;
      ghost var before := buffer;
      ErasedComment(before, pos, posComment, e, keep);
      if pos == 0 {
        assert before[pos..] == before;
        EmptyingStep(before, posComment, e, keep);
      }
      buffer := buffer[..posComment] + buffer[e..];
      if buffer == [] {
        emptied := true;
        return;
      }
      posComment := pos;
    }
    assert forall i :: 0 <= i < |buffer| - pos ==> CommentAt(buffer[pos..], i, keep) == CommentAt(buffer, i + pos, keep);
  }

  /** One step of the comment loop. */
  lemma ErasedComment(before: string, pos: nat, p: nat, e: nat, keep: bool)
    requires pos <= p < e <= |before| && NoReturns(before[pos..])
    requires CommentAt(before, p, keep)
    requires forall i :: p <= i < e ==> before[i] != '\n'
    requires e < |before| ==> before[e] == '\n'
    ensures var buffer := before[..p] + before[e..];
            && buffer[..pos] == before[..pos]
            && NoReturns(buffer[pos..])
            && CleanLines(buffer[pos..], keep) == CleanLines(before[pos..], keep)
  {
    hide CleanLines;
    var buffer, s := before[..p] + before[e..], before[pos..];
    assert forall i :: 0 <= i < |s| ==> s[i] == before[i + pos];
    assert CommentAt(s, p - pos, keep) == CommentAt(before, p, keep);
    EraseComment(s, p - pos, e - pos, keep);
    assert buffer[pos..] == s[..p - pos] + s[e - pos..];
  }

  /** A step that empties the whole text started from a lone comment, and no other step leaves one. */
  lemma EmptyingStep(before: string, p: nat, e: nat, keep: bool)
    requires p < e <= |before| && NoReturns(before)
    requires CommentAt(before, p, keep)
    requires forall i :: 0 <= i < p ==> !CommentAt(before, i, keep)
    requires forall i :: p <= i < e ==> before[i] != '\n'
    requires e < |before| ==> before[e] == '\n'
    ensures before[..p] + before[e..] == [] <==> LoneComment(before, keep)
    ensures !LoneComment(before[..p] + before[e..], keep)
  {
    var buffer := before[..p] + before[e..];
    if buffer != [] {
      if p == 0 {
        assert before[e] == '\n' && buffer[0] == '\n';
      } else {
        assert !CommentAt(before, 0, keep);
      }
    }
  }

  /** The newline loop removes every blank line of the part being cleaned. */
  method CollapseBlankLines(text: string, pos: nat, keep: bool) returns (buffer: string)
    requires pos <= |text| && NoReturns(text[pos..]) && NoComments(text[pos..], keep)
    requires pos > 0 ==> text[pos - 1] == '\n'
    ensures pos <= |buffer| && buffer[..pos] == text[..pos]
    ensures CleanLines(buffer[pos..], keep) == CleanLines(text[pos..], keep)
    ensures NoReturns(buffer[pos..]) && NoComments(buffer[pos..], keep) && NoBlankLines(buffer[pos..])
    ensures pos > 0 && pos < |buffer| ==> buffer[pos] != '\n'
  {
    hide CleanLines;
    buffer := text;
    var start := if pos > 0 then pos - 1 else 0;
    var posDoubleNewline := start;
    while FindTwice(buffer, '\n', posDoubleNewline) != NPOS
      invariant start <= posDoubleNewline && pos <= |buffer|
      invariant buffer[..pos] == text[..pos]
      invariant CleanLines(buffer[pos..], keep) == CleanLines(text[pos..], keep)
      invariant NoReturns(buffer[pos..]) && NoComments(buffer[pos..], keep)
      invariant forall i :: start <= i < posDoubleNewline && i < |buffer| - 1 ==> !(buffer[i] == '\n' && buffer[i + 1] == '\n')
      decreases |buffer|
    {
      posDoubleNewline := FindTwice(buffer, '\n', posDoubleNewline);
      CollapsedNewline(buffer, pos, posDoubleNewline, keep);
      buffer := buffer[..posDoubleNewline] + "\n" + buffer[posDoubleNewline + 2..];
    }
  }

  /** One step of the newline loop. */
  lemma CollapsedNewline(before: string, pos: nat, p: nat, keep: bool)
    requires p + 1 < |before| && pos <= p + 1 && before[p] == '\n' && before[p + 1] == '\n'
    requires NoReturns(before[pos..]) && NoComments(before[pos..], keep)
    ensures var buffer := before[..p] + "\n" + before[p + 2..];
            && pos <= |buffer| < |before|
            && buffer[..pos] == before[..pos]
            && NoReturns(buffer[pos..]) && NoComments(buffer[pos..], keep)
            && CleanLines(buffer[pos..], keep) == CleanLines(before[pos..], keep)
  {
    hide CleanLines;
    var buffer, s := before[..p] + "\n" + before[p + 2..], before[pos..];
    var t := buffer[pos..];
    if p < pos {
      assert t == s[1..];
      DropLeadingNewline(s, keep);
    } else {
      assert t == s[..p - pos] + "\n" + s[p - pos + 2..];
      CollapseNewlines(s, p - pos, keep);
    }
    var cut := p + 1 - pos;
    assert forall i :: 0 <= i < |t| ==> t[i] == if i < cut then s[i] else s[i + 1];
    forall i | 0 <= i < |t|
      ensures !CommentAt(t, i, keep)
    {
      assert !CommentAt(s, if i < cut then i else i + 1, keep);
    }
  }

  /** The last two steps: no empty first line, and a newline at the end unless nothing is left. */
  method TrimEnds(text: string, pos: nat, keep: bool) returns (buffer: string)
    requires pos <= |text|
    requires pos > 0 ==> text[0] != '\n' && (pos < |text| ==> text[pos] != '\n') && text[pos - 1] == '\n'
    requires NoReturns(text[pos..]) && NoComments(text[pos..], keep) && NoBlankLines(text[pos..])
    ensures buffer == text[..pos] + Render(CleanLines(text[pos..], keep))
  {
    hide CleanLines, Render, NoReturns, NoComments, NoBlankLines;
    ghost var tail := text[pos..];
    buffer := text;
    if Find(buffer, '\n', 0) == 0 {
      assert pos == 0 && tail == buffer;
      DroppedNewline(buffer, keep);
      buffer := buffer[1..];
      tail := buffer;
    }
    assert buffer == text[..pos] + tail;
    Terminated(tail, keep);

    if |buffer| > 0 && buffer[|buffer| - 1] != '\n' {
      assert tail != [] && tail[|tail| - 1] == buffer[|buffer| - 1];
      buffer := buffer + "\n";
      assert buffer == text[..pos] + (tail + "\n");
    } else if tail != [] {
      assert tail[|tail| - 1] == buffer[|buffer| - 1];
    }
  }

  lemma Terminated(s: string, keep: bool)
    requires NoReturns(s) && NoComments(s, keep) && NoBlankLines(s)
    requires s != [] ==> s[0] != '\n'
    ensures Render(CleanLines(s, keep)) == if s != [] && s[|s| - 1] != '\n' then s + "\n" else s
  {
    hide CleanLines;
    if s != [] && s[|s| - 1] != '\n' {
      AddTrailingNewline(s, keep);
      AddedNewline(s, keep);
      CanonicalIsRendered(s + "\n", keep);
    } else {
      CanonicalIsRendered(s, keep);
    }
  }

  /** The whole rewriting: what precedes `pos` stays, what follows becomes the stored form of its
      printable lines. It stops early when a lone comment was all there was. */
  method CleanText(text: string, pos: nat, keep: bool) returns (buffer: string, emptied: bool)
    requires pos <= |text|
    requires pos > 0 ==> text[0] != '\n' && text[pos - 1] == '\n'
    ensures buffer == text[..pos] + Render(CleanLines(text[pos..], keep))
    ensures emptied <==> pos == 0 && LoneComment(text, keep)
  {
    hide CleanLines;
    NoText(keep);
    var dirty := text[pos..];
    buffer := text[..pos] + ReturnsToNewlines(dirty);
    ReturnsDoNotMatter(dirty, keep);
    assert buffer[pos..] == ReturnsToNewlines(dirty);
    LoneCommentReturns(dirty, keep);
    assert pos == 0 ==> dirty == text && buffer == ReturnsToNewlines(dirty);

    buffer, emptied := RemoveComments(buffer, pos, keep);
    assert buffer[..pos] == text[..pos];
    if emptied {
      assert buffer[pos..] == [];
    } else {
      buffer := CollapseBlankLines(buffer, pos, keep);
      assert buffer[..pos] == text[..pos];
      buffer := TrimEnds(buffer, pos, keep);
    }
  }

  lemma LoneCommentReturns(s: string, keep: bool)
    ensures LoneComment(ReturnsToNewlines(s), keep) == LoneComment(s, keep)
  {
    var t := ReturnsToNewlines(s);
    assert forall i :: 0 <= i < |s| ==> IsBreak(s[i]) == IsBreak(t[i]);
    assert s != [] ==> CommentAt(s, 0, keep) == CommentAt(t, 0, keep);
  }

  lemma DroppedNewline(s: string, keep: bool)
    requires s != [] && s[0] == '\n' && NoReturns(s) && NoComments(s, keep) && NoBlankLines(s)
    ensures NoReturns(s[1..]) && NoComments(s[1..], keep) && NoBlankLines(s[1..])
    ensures s[1..] != [] ==> s[1] != '\n'
    ensures CleanLines(s[1..], keep) == CleanLines(s, keep)
  {
    hide CleanLines;
    DropLeadingNewline(s, keep);
    var t := s[1..];
    assert forall i :: 0 <= i < |t| ==> t[i] == s[i + 1];
    assert forall i :: 0 <= i < |t| ==> CommentAt(t, i, keep) == CommentAt(s, i + 1, keep);
  }

  lemma AddedNewline(s: string, keep: bool)
    requires s != [] && s[|s| - 1] != '\n' && NoReturns(s) && NoComments(s, keep) && NoBlankLines(s)
    ensures NoReturns(s + "\n") && NoComments(s + "\n", keep) && NoBlankLines(s + "\n")
  {
    var t := s + "\n";
    assert forall i :: 0 <= i < |s| ==> t[i] == s[i];
    assert forall i :: 0 <= i < |s| ==> CommentAt(t, i, keep) == CommentAt(s, i, keep);
  }
}
