/** The buckets of the G-code buffer as values: what they stand for, how a piece of G-code
    is stored in the last one, and how lines are read and cut from the first. */
module Buckets {
  import opened Cleanup
  import opened Common
  import opened GCodeText
  import opened StoredText
  import opened Strings

  /** How many lines a request for `amount` lines gets from a bucket with `present` lines. */
  function Granted(amount: nat, present: nat): nat {
    Min(Max(amount, 1), present)
  }

  /** Every bucket holds whole printable lines; only the last may be empty. */
  ghost predicate Stored(buckets: seq<string>, keep: bool) {
    && (forall i :: 0 <= i < |buckets| ==> Canonical(buckets[i], keep))
    && (forall i :: 0 <= i < |buckets| - 1 ==> buckets[i] != "")
  }

  /** The lines the buckets hold, in order. */
  ghost function LinesOf(buckets: seq<string>): seq<string> {
    CleanLines(Flatten(buckets), true)
  }

  lemma CanonicalIsLax(t: string, keep: bool)
    requires Canonical(t, keep)
    ensures Canonical(t, true)
  {
    assert forall i :: 0 <= i < |t| && CommentAt(t, i, true) ==> CommentAt(t, i, keep);
  }

  lemma StoredIsLax(buckets: seq<string>, keep: bool)
    requires Stored(buckets, keep)
    ensures Stored(buckets, true)
  {
    forall i | 0 <= i < |buckets|
      ensures Canonical(buckets[i], true)
    {
      CanonicalIsLax(buckets[i], keep);
    }
  }

  lemma {:induction false} ConcatIsCanonical(buckets: seq<string>, keep: bool)
    requires forall i :: 0 <= i < |buckets| ==> Canonical(buckets[i], keep)
    ensures Canonical(Flatten(buckets), keep)
  {
    if buckets != [] {
      ConcatIsCanonical(buckets[1..], keep);
      CanonicalJoin(buckets[0], Flatten(buckets[1..]), keep);
    }
  }

  /** The buckets with the one that receives the next piece of G-code last. */
  function Receiving(buckets: seq<string>, maxBucketSize: nat): (bs: seq<string>)
    ensures bs != []
  {
    if buckets == [] || |buckets[|buckets| - 1]| >= maxBucketSize then buckets + [""] else buckets
  }

  lemma ReceivingIsStored(buckets: seq<string>, keep: bool, maxBucketSize: nat)
    requires Stored(buckets, keep) && maxBucketSize > 0
    ensures Stored(Receiving(buckets, maxBucketSize), keep)
    ensures Flatten(Receiving(buckets, maxBucketSize)) == Flatten(buckets)
    ensures LinesOf(Receiving(buckets, maxBucketSize)) == LinesOf(buckets)
  {
    hide CleanLines;
    FlattenLast(buckets, "");
  }

  lemma InitAndLast(ts: seq<string>)
    requires ts != []
    ensures ts == ts[..|ts| - 1] + [ts[|ts| - 1]]
  {
  }

  lemma ExtendSnoc(init: seq<string>, t: string, more: string)
    ensures Flatten(init + [t + more]) == Flatten(init + [t]) + more
  {
    hide *;
    FlattenLast(init, t);
    FlattenLast(init, t + more);
    Regroup(Flatten(init), t, more);
  }

  lemma ExtendLast(ts: seq<string>, more: string)
    requires ts != []
    ensures Flatten(ts[..|ts| - 1] + [ts[|ts| - 1] + more]) == Flatten(ts) + more
  {
    hide *;
    ExtendSnoc(ts[..|ts| - 1], ts[|ts| - 1], more);
    InitAndLast(ts);
  }

  /** Storing lines at the end of the last bucket. */
  lemma StoreLines(buckets: seq<string>, keep: bool, ls: seq<string>) returns (after: seq<string>)
    requires Stored(buckets, keep) && buckets != [] && AllClean(ls, keep)
    ensures after == buckets[..|buckets| - 1] + [buckets[|buckets| - 1] + Render(ls)]
    ensures Stored(after, keep)
    ensures LinesOf(after) == LinesOf(buckets) + ls
    ensures |Flatten(after)| == |Flatten(buckets)| + |Render(ls)|
  {
    hide CleanLines, Render, Canonical, AllClean, Flatten;
    after := buckets[..|buckets| - 1] + [buckets[|buckets| - 1] + Render(ls)];
    RenderIsCanonical(ls, keep);
    CanonicalJoin(buckets[|buckets| - 1], Render(ls), keep);
    ExtendLast(buckets, Render(ls));
    LinesAfterText(Flatten(buckets), buckets, keep, ls);
  }

  lemma LinesAfterText(text: string, buckets: seq<string>, keep: bool, ls: seq<string>)
    requires Stored(buckets, keep) && text == Flatten(buckets) && AllClean(ls, keep)
    ensures CleanLines(text + Render(ls), true) == CleanLines(text, true) + ls
  {
    hide CleanLines, Flatten;
    ConcatIsCanonical(buckets, keep);
    SplitAfterBreak(text, Render(ls), true);
    CleanIsLaxClean(ls, keep);
    CleanRendered(ls, true);
  }

  /** What a bucket looks like at its ends, and the newlines that storing lines adds to it. */
  lemma StoredEnds(b: string, keep: bool, ls: seq<string>)
    requires Canonical(b, keep) && AllClean(ls, keep)
    ensures b != "" ==> b[0] != '\n' && b[|b| - 1] == '\n'
    ensures b + Render(ls) != "" ==> (b + Render(ls))[|b + Render(ls)| - 1] == '\n'
    ensures Count(b + Render(ls), '\n', |b|) == |ls|
  {
    assert (b + Render(ls))[|b|..] == Render(ls);
    CountShift(b + Render(ls), Render(ls), '\n', |b|, 0);
    CountLines(ls, keep);
  }

  /** The front bucket, line by line. */
  lemma FrontLines(buckets: seq<string>, keep: bool) returns (ls: seq<string>)
    requires Stored(buckets, keep) && buckets != []
    ensures ls == CleanLines(buckets[0], true) && AllClean(ls, true)
    ensures buckets[0] == Render(ls)
    ensures LinesOf(buckets) == ls + LinesOf(buckets[1..])
    ensures ls == [] <==> buckets[0] == ""
    ensures ls == [] <==> LinesOf(buckets) == []
  {
    var b := buckets[0];
    ls := CleanLines(b, true);
    CanonicalIsLax(b, keep);
    hide CleanLines;
    CanonicalIsRendered(b, true);
    CleanLinesAreClean(b, true);
    SplitAfterBreak(b, Flatten(buckets[1..]), true);
    if b == "" {
      assert buckets[1..] == [];
      NoText(true);
    }
  }

  lemma LinesSuffix(front: seq<string>, rest: seq<string>, n: nat)
    requires n <= |front|
    ensures (front + rest)[n..] == front[n..] + rest
  {
  }

  /** Erasing the first n lines of the front bucket, and the bucket with them when none is left. */
  lemma EraseFront(buckets: seq<string>, keep: bool, ls: seq<string>, n: nat) returns (after: seq<string>)
    requires Stored(buckets, keep) && buckets != []
    requires ls == CleanLines(buckets[0], true) && n <= |ls|
    ensures after == if n == |ls| then buckets[1..] else [Render(ls[n..])] + buckets[1..]
    ensures Stored(after, keep)
    ensures n <= |LinesOf(buckets)| && LinesOf(after) == LinesOf(buckets)[n..]
    ensures |Flatten(after)| == |Flatten(buckets)| - |Render(ls[..n])|
  {
    OtherBuckets(buckets, keep);
    hide *;
    var all := FrontLines(buckets, keep);
    RenderPrefix(ls, n);
    LinesSuffix(ls, LinesOf(buckets[1..]), n);
    if n == |ls| {
      after := buckets[1..];
      assert ls[..n] == ls;
      assert Render(ls[n..]) == "" by { NoLines(); }
    } else {
      var rest := Render(ls[n..]);
      after := [rest] + buckets[1..];
      CanonicalSuffix(buckets[0], ls, keep, n);
      NewFront(rest, buckets, keep);
      FlattenCons(rest, buckets[1..]);
      SuffixIsClean(ls, n);
      CleanRendered(ls[n..], true);
      FrontOf(after, keep);
    }
  }

  lemma OtherBuckets(buckets: seq<string>, keep: bool)
    requires Stored(buckets, keep) && buckets != []
    ensures Stored(buckets[1..], keep) && Canonical(buckets[0], keep)
    ensures |Flatten(buckets)| == |buckets[0]| + |Flatten(buckets[1..])|
  {
  }

  lemma NewFront(b: string, buckets: seq<string>, keep: bool)
    requires Stored(buckets, keep) && buckets != [] && Canonical(b, keep) && b != ""
    ensures Stored([b] + buckets[1..], keep)
    ensures ([b] + buckets[1..])[0] == b && ([b] + buckets[1..])[1..] == buckets[1..]
  {
  }

  lemma SuffixIsClean(ls: seq<string>, n: nat)
    requires AllClean(ls, true) && n <= |ls|
    ensures AllClean(ls[n..], true)
  {
  }

  lemma FrontOf(buckets: seq<string>, keep: bool)
    requires Stored(buckets, keep) && buckets != []
    ensures LinesOf(buckets) == CleanLines(buckets[0], true) + LinesOf(buckets[1..])
  {
    var ls := FrontLines(buckets, keep);
  }

  lemma CanonicalSuffix(b: string, ls: seq<string>, keep: bool, n: nat)
    requires Canonical(b, keep) && b == Render(ls) && n < |ls|
    ensures Canonical(Render(ls[n..]), keep) && Render(ls[n..]) != ""
  {
    RenderPrefix(ls, n);
    var k := |Render(ls[..n])|;
    if n == 0 {
      assert ls[n..] == ls;
    } else {
      assert b[k - 1] == '\n' && b[k..] == Render(ls[n..]);
      CanonicalTail(b, k - 1, keep);
    }
  }

  lemma LoneCommentIsNoLine(s: string, keep: bool)
    requires LoneComment(s, keep)
    ensures CleanLines(s, keep) == []
  {
    FirstLine(s, |s|, keep);
    FirstComment(s, 0, keep);
  }

  /** The early return: a lone comment that an empty bucket receives leaves it empty. */
  predicate Wiped(buckets: seq<string>, gcode: string, maxBucketSize: nat, keep: bool) {
    var bs := Receiving(buckets, maxBucketSize);
    LoneComment(gcode, keep) && bs[|bs| - 1] == ""
  }

  /** By how much the byte count grows when a piece of G-code is stored. */
  ghost function Growth(buckets: seq<string>, gcode: string, maxBucketSize: nat, keep: bool): nat {
    if Wiped(buckets, gcode, maxBucketSize, keep) then |gcode| else |Render(CleanLines(gcode, keep))|
  }

  /** The buckets after a piece of G-code has been stored. */
  ghost function AfterPiece(buckets: seq<string>, gcode: string, maxBucketSize: nat, keep: bool): seq<string> {
    var bs := Receiving(buckets, maxBucketSize);
    bs[..|bs| - 1] + [bs[|bs| - 1] + Render(CleanLines(gcode, keep))]
  }

  lemma StoredPiece(buckets: seq<string>, gcode: string, maxBucketSize: nat, keep: bool, lax: bool)
    returns (b: string, after: seq<string>)
    requires Stored(buckets, lax) && maxBucketSize > 0 && (keep ==> lax)
    ensures b == Receiving(buckets, maxBucketSize)[|Receiving(buckets, maxBucketSize)| - 1]
    ensures after == AfterPiece(buckets, gcode, maxBucketSize, keep)
    ensures after == Receiving(buckets, maxBucketSize)[..|Receiving(buckets, maxBucketSize)| - 1] + [b + Render(CleanLines(gcode, keep))]
    ensures Stored(after, lax)
    ensures LinesOf(after) == LinesOf(buckets) + CleanLines(gcode, keep)
    ensures |Flatten(after)| == |Flatten(buckets)| + |Render(CleanLines(gcode, keep))|
    ensures b != "" ==> b[0] != '\n' && b[|b| - 1] == '\n'
    ensures b + Render(CleanLines(gcode, keep)) != "" ==>
              (b + Render(CleanLines(gcode, keep)))[|b + Render(CleanLines(gcode, keep))| - 1] == '\n'
    ensures Count(b + Render(CleanLines(gcode, keep)), '\n', |b|) == |CleanLines(gcode, keep)|
  {
    hide *;
    var ls := CleanLines(gcode, keep);
    CleanLinesAreClean(gcode, keep);
    if !keep && lax {
      CleanIsLaxClean(ls, keep);
    }
    var bs := Receiving(buckets, maxBucketSize);
    ReceivingIsStored(buckets, lax, maxBucketSize);
    after := StoreLines(bs, lax, ls);
    b := bs[|bs| - 1];
    PieceIs(buckets, gcode, maxBucketSize, keep);
    LastIsCanonical(bs, lax);
    StoredEnds(b, lax, ls);
  }

  lemma PieceIs(buckets: seq<string>, gcode: string, maxBucketSize: nat, keep: bool)
    ensures var bs := Receiving(buckets, maxBucketSize);
            AfterPiece(buckets, gcode, maxBucketSize, keep) == bs[..|bs| - 1] + [bs[|bs| - 1] + Render(CleanLines(gcode, keep))]
  {
  }

  lemma LastIsCanonical(buckets: seq<string>, keep: bool)
    requires Stored(buckets, keep) && buckets != []
    ensures Canonical(buckets[|buckets| - 1], keep)
  {
  }

  method ChooseBucket(buckets: seq<string>, maxBucketSize: nat) returns (after: seq<string>)
    requires maxBucketSize > 0
    ensures after == Receiving(buckets, maxBucketSize)
    ensures after == buckets || after == buckets + [""]
    ensures after == buckets <==> buckets != [] && |buckets[|buckets| - 1]| < maxBucketSize
  {
    after := buckets;
    if |after| == 0 {
      after := after + [""];
    }
    if |after[|after| - 1]| >= maxBucketSize {
      after := after + [""];
    }
  }

  /** Cleans a piece of G-code at the end of the last bucket, or in a new one when that is full.
      Returns the newlines that were added and the net change of the byte count. */
  method StoreChunk(buckets: seq<string>, gcode: string, maxBucketSize: nat, keep: bool, ghost lax: bool)
    returns (after: seq<string>, addedLineCount: int, growth: int)
    requires Stored(buckets, lax) && maxBucketSize > 0 && (keep ==> lax)
    ensures Stored(after, lax) && after != []
    ensures LinesOf(after) == LinesOf(buckets) + CleanLines(gcode, keep)
    ensures |Flatten(after)| == |Flatten(buckets)| + |Render(CleanLines(gcode, keep))|
    ensures addedLineCount == |CleanLines(gcode, keep)|
    ensures after == AfterPiece(buckets, gcode, maxBucketSize, keep)
    ensures growth == Growth(buckets, gcode, maxBucketSize, keep)
    ensures Wiped(buckets, gcode, maxBucketSize, keep) ==> Render(CleanLines(gcode, keep)) == ""
  {
    hide CleanLines, LinesOf, Stored, Flatten, LoneComment, Render, Count, Receiving;
    ghost var b0, after0 := StoredPiece(buckets, gcode, maxBucketSize, keep, lax);
    after := ChooseBucket(buckets, maxBucketSize);
    var b := after[|after| - 1];
    var pos := |b|;
    Halves(b, gcode);
    var buffer, emptied := CleanText(b + gcode, pos, keep);
    // The correction is unsigned in the program and may also add one: the same modulo its width.
    growth := if emptied then 0 else -(pos + |gcode| - |buffer|);
    growth := growth + |gcode|;
    after := after[..|after| - 1] + [buffer];
    assert after == after0;

    addedLineCount := Count(buffer, '\n', pos);
    if |buffer| > 0 && buffer[|buffer| - 1] != '\n' {
      addedLineCount := addedLineCount + 1;
    }
    if LoneComment(gcode, keep) {
      LoneCommentIsNoLine(gcode, keep);
      NoLines();
    }
  }

  lemma Halves(a: string, b: string)
    ensures (a + b)[..|a|] == a && (a + b)[|a|..] == b
  {
  }

  lemma NoLines()
    ensures Render([]) == ""
  {
  }

  /** The loop that getNextLine and eraseLine share: from the first newline of a bucket, look for
      the end of the amount-th line. Gives up at the end of the bucket. */
  method MoreLines(b: string, first: nat, amount: nat, ghost ls: seq<string>) returns (pos: int, counter: nat)
    requires amount > 1 && AllClean(ls, true) && ls != [] && b == Render(ls)
    requires first == |Render(ls[..1])| - 1
    ensures counter == Granted(amount, |ls|)
    ensures amount > |ls| ==> pos == NPOS
    ensures amount <= |ls| ==> pos == |Render(ls[..counter])| - 1
  {
    hide Render, AllClean, CleanLines;
    pos, counter := first, 1;
    var i := amount - 1;
    while i > 0
      invariant 0 <= i && counter == amount - i && counter <= |ls|
      invariant pos == |Render(ls[..counter])| - 1
      invariant pos != NPOS
    {
      NextNewline(ls, counter, true);
      pos := Find(b, '\n', pos + 1);
      if pos == NPOS {
        break;
      }
      counter := counter + 1;
      i := i - 1;
    }
    // An unterminated last line would be counted here; a bucket has none.
    if pos == NPOS && b[|b| - 1] != '\n' {
      assert false;
    }
  }

  lemma FirstLines(ls: seq<string>, n: nat)
    requires AllClean(ls, true) && 0 < n <= |ls|
    ensures |Render(ls[..n])| > 0
    ensures CleanLines(Render(ls[..n]), true) == ls[..n]
    ensures CleanLines(Render(ls[..n])[..|Render(ls[..n])| - 1], true) == ls[..n]
  {
    var t := Render(ls[..n]);
    PrefixIsClean(ls, n);
    hide *;
    CleanRendered(ls[..n], true);
    EndsWithNewline(t);
    AddTrailingNewline(t[..|t| - 1], true);
  }

  lemma EndsWithNewline(t: string)
    requires t != "" && t[|t| - 1] == '\n'
    ensures t == t[..|t| - 1] + "\n"
  {
  }

  lemma PrefixIsClean(ls: seq<string>, n: nat)
    requires AllClean(ls, true) && n <= |ls|
    ensures AllClean(ls[..n], true)
    ensures n > 0 ==> ls[..n] != []
  {
  }

  lemma FirstOfAll(front: seq<string>, rest: seq<string>, n: nat)
    requires n <= |front|
    ensures (front + rest)[..n] == front[..n]
  {
  }

  /** Without its newline, the first line of stored text is that line. */
  lemma OneStoredLine(ls: seq<string>)
    requires ls != []
    ensures Render(ls[..1]) == ls[0] + "\n" && Render(ls[..1])[..|ls[0]|] == ls[0]
  {
    assert ls[..1] == [ls[0]];
    RenderOne(ls[0]);
  }

  /** What getNextLine reads from the front bucket. */
  method ReadFront(b: string, amount: nat, ghost ls: seq<string>) returns (line: string, counter: nat)
    requires AllClean(ls, true) && b == Render(ls)
    ensures counter == Granted(amount, |ls|)
    ensures CleanLines(line, true) == ls[..counter]
    ensures amount <= 1 && ls != [] ==> line == ls[0]
    ensures ls == [] ==> line == ""
  {
    hide Render, AllClean, CleanLines;
    NextNewline(ls, 0, true);
    NoLines();
    NoText(true);
    assert ls[..0] == [];
    var pos := Find(b, '\n', 0);
    counter := if pos != NPOS then 1 else 0;
    if amount > 1 && pos != NPOS {
      pos, counter := MoreLines(b, pos, amount, ls);
    }
    if ls != [] {
      FirstLines(ls, counter);
      OneStoredLine(ls);
      RenderPrefix(ls, counter);
    }
    line := if pos == NPOS then b else b[..pos];
    if pos == NPOS {
      assert ls[..counter] == ls;
    } else {
      assert b[..pos] == Render(ls[..counter])[..pos];
    }
  }

  /** What eraseLine leaves of the front bucket, and how many lines it counts as erased. */
  method CutFront(b: string, amount: nat, ghost ls: seq<string>) returns (rest: string, counter: nat)
    requires AllClean(ls, true) && b == Render(ls)
    requires amount > 1 ==> b != ""
    ensures counter == if ls == [] then 1 else Granted(amount, |ls|)
    ensures rest == if ls == [] then "" else Render(ls[counter..])
    ensures ls != [] ==> |b| - |rest| == |Render(ls[..counter])|
  {
    hide Render, AllClean, CleanLines;
    NextNewline(ls, 0, true);
    NoLines();
    assert ls[..0] == [];
    var pos := Find(b, '\n', 0);
    counter := 1;
    if amount > 1 {
      pos, counter := MoreLines(b, pos, amount, ls);
    }
    if ls != [] {
      RenderPrefix(ls, counter);
    }
    rest := if pos == NPOS then "" else b[pos + 1..];
    if pos == NPOS && ls != [] {
      assert ls[counter..] == [] && ls[..counter] == ls;
    }
  }

  lemma NoBuckets()
    ensures LinesOf([]) == []
  {
    hide CleanLines;
    NoText(true);
  }

  lemma SuffixNotEmpty(ls: seq<string>, n: nat)
    requires n <= |ls|
    ensures n < |ls| <==> Render(ls[n..]) != ""
  {
  }

  // --------------------------------------------------- splitting what is appended

  /** Length of the piece of `gcode` that append stores next: it ends at the first
      newline at least `splitSize` further on. */
  function ChunkLength(gcode: string, start: nat, splitSize: nat): (len: nat)
    requires start < |gcode|
    ensures 0 < len && start + len <= |gcode|
    ensures start + len < |gcode| ==> gcode[start + len - 1] == '\n' && len > splitSize
    ensures forall i :: start + splitSize <= i < start + len - 1 ==> gcode[i] != '\n'
  {
    var nl := Find(gcode, '\n', start + splitSize);
    if nl != NPOS then nl - start + 1 else |gcode| - start
  }

  /** The buckets after the rest of `gcode` has been stored piece by piece. */
  ghost function AfterPieces(buckets: seq<string>, gcode: string, start: nat, maxBucketSize: nat, splitSize: nat, keep: bool): seq<string>
    requires start <= |gcode|
    decreases |gcode| - start
  {
    if start == |gcode| then buckets else
      var len := ChunkLength(gcode, start, splitSize);
      AfterPieces(AfterPiece(buckets, gcode[start..start + len], maxBucketSize, keep), gcode, start + len, maxBucketSize, splitSize, keep)
  }

  /** How many bytes of the rest of `gcode` are wiped without correcting the byte count. */
  ghost function WipedBytes(buckets: seq<string>, gcode: string, start: nat, maxBucketSize: nat, splitSize: nat, keep: bool): nat
    requires start <= |gcode|
    decreases |gcode| - start
  {
    if start == |gcode| then 0 else
      var len := ChunkLength(gcode, start, splitSize);
      var piece := gcode[start..start + len];
      (if Wiped(buckets, piece, maxBucketSize, keep) then |piece| else 0)
      + WipedBytes(AfterPiece(buckets, piece, maxBucketSize, keep), gcode, start + len, maxBucketSize, splitSize, keep)
  }

  /** One round of the append loop. */
  lemma PieceStep(buckets: seq<string>, gcode: string, start: nat, maxBucketSize: nat, splitSize: nat, len: nat, keep: bool)
    requires start < |gcode| && (start == 0 || gcode[start - 1] == '\n')
    requires len == var nl := Find(gcode, '\n', start + splitSize); if nl != NPOS then nl - start + 1 else |gcode| - start
    ensures 0 < len && start + len <= |gcode|
    ensures start + len < |gcode| ==> gcode[start + len - 1] == '\n'
    ensures CleanLines(gcode[..start + len], keep) == CleanLines(gcode[..start], keep) + CleanLines(gcode[start..start + len], keep)
    ensures AfterPieces(buckets, gcode, start, maxBucketSize, splitSize, keep)
         == AfterPieces(AfterPiece(buckets, gcode[start..start + len], maxBucketSize, keep), gcode, start + len, maxBucketSize, splitSize, keep)
    ensures WipedBytes(buckets, gcode, start, maxBucketSize, splitSize, keep)
         == (if Wiped(buckets, gcode[start..start + len], maxBucketSize, keep) then len else 0)
            + WipedBytes(AfterPiece(buckets, gcode[start..start + len], maxBucketSize, keep), gcode, start + len, maxBucketSize, splitSize, keep)
  {
    hide CleanLines, AfterPiece, Wiped, LoneComment, Render;
    assert len == ChunkLength(gcode, start, splitSize);
    PrefixGrows(gcode, start, len);
    SplitAfterBreak(gcode[..start], gcode[start..start + len], keep);
  }

  lemma PrefixGrows(s: string, start: nat, len: nat)
    requires start + len <= |s|
    ensures s[..start + len] == s[..start] + s[start..start + len]
    ensures s[start..] == s[start..start + len] + s[start + len..]
    ensures start + len == |s| ==> s[start..start + len] == s[start..]
  {
  }

  lemma AllPiecesStored(buckets: seq<string>, gcode: string, maxBucketSize: nat, splitSize: nat, keep: bool)
    ensures AfterPieces(buckets, gcode, |gcode|, maxBucketSize, splitSize, keep) == buckets
    ensures WipedBytes(buckets, gcode, |gcode|, maxBucketSize, splitSize, keep) == 0
  {
  }

  // ------------------------------------------------------------ byte accounting

  /** The bytes that buckets hold are those of their lines. */
  lemma BytesAreLines(buckets: seq<string>, keep: bool)
    requires Stored(buckets, keep)
    ensures Flatten(buckets) == Render(LinesOf(buckets))
  {
    hide CleanLines, Render, Canonical;
    StoredIsLax(buckets, keep);
    ConcatIsCanonical(buckets, true);
    CanonicalIsRendered(Flatten(buckets), true);
  }

  lemma LinesTakeBytes(before: seq<string>, after: seq<string>, keep: bool, ls: seq<string>)
    requires Stored(before, keep) && Stored(after, keep) && LinesOf(after) == LinesOf(before) + ls
    ensures |Flatten(after)| == |Flatten(before)| + |Render(ls)|
  {
    hide *;
    BytesAreLines(before, keep);
    BytesAreLines(after, keep);
    RenderAppend(LinesOf(before), ls);
  }

  /** Only the last piece can be wiped; if it is, lines and wiped bytes together are no more than the text. */
  lemma {:induction false} WipedAtTheEnd(buckets: seq<string>, gcode: string, start: nat, maxBucketSize: nat, splitSize: nat, keep: bool)
    requires start <= |gcode| && (start == 0 || start == |gcode| || gcode[start - 1] == '\n')
    ensures WipedBytes(buckets, gcode, start, maxBucketSize, splitSize, keep) > 0 ==>
              |Render(CleanLines(gcode[start..], keep))| + WipedBytes(buckets, gcode, start, maxBucketSize, splitSize, keep) <= |gcode| - start
    decreases |gcode| - start
  {
    hide *;
    if start == |gcode| {
      AllPiecesStored(buckets, gcode, maxBucketSize, splitSize, keep);
    } else {
      var len := NextPiece(gcode, start, splitSize);
      PieceStep(buckets, gcode, start, maxBucketSize, splitSize, len, keep);
      var piece, after := gcode[start..start + len], AfterPiece(buckets, gcode[start..start + len], maxBucketSize, keep);
      PrefixGrows(gcode, start, len);
      if start + len < |gcode| {
        WipedIsLone(buckets, piece, maxBucketSize, keep);
        WipedAtTheEnd(after, gcode, start + len, maxBucketSize, splitSize, keep);
        WholePiece(piece, gcode[start + len..], keep);
      } else {
        AllPiecesStored(after, gcode, maxBucketSize, splitSize, keep);
        WipedIsLone(buckets, piece, maxBucketSize, keep);
      }
    }
  }

  lemma NextPiece(gcode: string, start: nat, splitSize: nat) returns (len: nat)
    requires start < |gcode|
    ensures len == var nl := Find(gcode, '\n', start + splitSize); if nl != NPOS then nl - start + 1 else |gcode| - start
  {
    len := ChunkLength(gcode, start, splitSize);
  }

  /** A piece that ends with a newline takes no more bytes than it has. */
  lemma WholePiece(piece: string, rest: string, keep: bool)
    requires piece != "" && piece[|piece| - 1] == '\n'
    ensures |Render(CleanLines(piece + rest, keep))| <= |piece| + |Render(CleanLines(rest, keep))|
  {
    assert IsBreak(piece[|piece| - 1]);
    hide *;
    RenderedLength(piece, keep);
    SplitAfterBreak(piece, rest, keep);
    RenderAppend(CleanLines(piece, keep), CleanLines(rest, keep));
  }

  lemma WipedIsLone(buckets: seq<string>, gcode: string, maxBucketSize: nat, keep: bool)
    requires gcode != ""
    ensures Wiped(buckets, gcode, maxBucketSize, keep) ==> Render(CleanLines(gcode, keep)) == "" && gcode[|gcode| - 1] != '\n'
  {
    if Wiped(buckets, gcode, maxBucketSize, keep) {
      LoneCommentIsNoLine(gcode, keep);
      NoLines();
    }
  }

  /** By how much the byte count grows when a whole text is appended. */
  ghost function TextGrowth(buckets: seq<string>, gcode: string, maxBucketSize: nat, splitSize: nat, keep: bool): nat {
    |Render(CleanLines(gcode, keep))| + WipedBytes(buckets, gcode, 0, maxBucketSize, splitSize, keep)
  }

  /** A text never takes more than one byte beyond its length, and that byte only if all it lacks is its last newline. */
  lemma GrowthIsBounded(buckets: seq<string>, gcode: string, maxBucketSize: nat, splitSize: nat, keep: bool)
    ensures TextGrowth(buckets, gcode, maxBucketSize, splitSize, keep) <= |gcode| + if gcode == "" then 0 else 1
    ensures TextGrowth(buckets, gcode, maxBucketSize, splitSize, keep) == |gcode| + 1 <==> LacksNewlineOnly(gcode, keep)
  {
    hide CleanLines, Render, WipedBytes, Canonical;
    assert gcode[0..] == gcode;
    WipedAtTheEnd(buckets, gcode, 0, maxBucketSize, splitSize, keep);
    RenderedLength(gcode, keep);
    LongestRendering(gcode, keep);
  }

  /** The byte count can exceed the limit: one byte, accepted by an empty buffer of one byte, counts as two. */
  lemma LimitIsExceeded(splitSize: nat)
    ensures LacksNewlineOnly("G", false) && TextGrowth([], "G", 1, splitSize, false) == 2 > 1
  {
    var t := ReturnsToNewlines("G") + "\n";
    assert t == "G\n";
    GrowthIsBounded([], "G", 1, splitSize, false);
  }

  /** The byte count can exceed the bytes held: a lone comment in an empty buffer counts as one, and nothing is held. */
  lemma WipedBytesAreCounted(maxBucketSize: nat, splitSize: nat)
    requires maxBucketSize > 0
    ensures TextGrowth([], ";", maxBucketSize, splitSize, false) == 1
    ensures Flatten(AfterPieces([], ";", 0, maxBucketSize, splitSize, false)) == ""
  {
    LoneSemicolon();
    NoLines();
    hide *;
    SemicolonPiece(splitSize);
    EmptyBucketReceives(maxBucketSize);
    PieceStep([], ";", 0, maxBucketSize, splitSize, 1, false);
    AllPiecesStored([""], ";", maxBucketSize, splitSize, false);
    FlattenOne("");
    GrowthOfSemicolon(maxBucketSize, splitSize);
  }

  lemma LoneSemicolon()
    ensures LoneComment(";", false) && CleanLines(";", false) == []
  {
    assert CommentAt(";", 0, false) && !IsBreak(';');
    assert LoneComment(";", false);
    LoneCommentIsNoLine(";", false);
  }

  lemma SemicolonPiece(splitSize: nat)
    ensures Find(";", '\n', splitSize) == NPOS && ";"[0..1] == ";"
  {
    hide Find;
    assert ";"[0] == ';';
  }

  lemma EmptyBucketReceives(maxBucketSize: nat)
    requires maxBucketSize > 0
    ensures AfterPiece([], ";", maxBucketSize, false) == [""] && Wiped([], ";", maxBucketSize, false)
  {
    LoneSemicolon();
    NoLines();
    EmptyBucketTakes(";", maxBucketSize, false);
  }

  lemma EmptyBucketTakes(gcode: string, maxBucketSize: nat, keep: bool)
    requires maxBucketSize > 0 && LoneComment(gcode, keep) && Render(CleanLines(gcode, keep)) == ""
    ensures AfterPiece([], gcode, maxBucketSize, keep) == [""] && Wiped([], gcode, maxBucketSize, keep)
  {
    hide CleanLines, LoneComment;
    var bs := Receiving([], maxBucketSize);
    assert bs == [""];
    assert bs[|bs| - 1] + Render(CleanLines(gcode, keep)) == "";
    assert bs[..|bs| - 1] + [""] == [""];
  }

  lemma GrowthOfSemicolon(maxBucketSize: nat, splitSize: nat)
    ensures TextGrowth([], ";", maxBucketSize, splitSize, false) == WipedBytes([], ";", 0, maxBucketSize, splitSize, false)
  {
    LoneSemicolon();
    NoLines();
    hide WipedBytes;
  }

  /** Stored lines are the same whether or not macros are looked for. */
  lemma SameWithMacros(buckets: seq<string>, keep: bool)
    requires Stored(buckets, keep)
    ensures LinesOf(buckets) == CleanLines(Flatten(buckets), keep)
  {
    StoredIsCanonical(buckets, keep);
    hide CleanLines;
    var t := Flatten(buckets);
    CanonicalIsRendered(t, keep);
    CleanLinesAreClean(t, keep);
    CleanIsLaxClean(CleanLines(t, keep), keep);
    CleanRendered(CleanLines(t, keep), true);
  }

  lemma StoredIsCanonical(buckets: seq<string>, keep: bool)
    requires Stored(buckets, keep)
    ensures Canonical(Flatten(buckets), keep)
  {
    ConcatIsCanonical(buckets, keep);
  }
}
