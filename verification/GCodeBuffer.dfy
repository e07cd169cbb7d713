/** The bucketed, self-cleaning buffer of G-code lines (src/drivers/GCodeBuffer.cpp).
    To its users it is a plain queue of printable lines. */
module GCodeBuffers {
  import opened Buckets
  import opened Common
  import opened GCodeText
  import opened Metadata
  import opened StoredText
  import opened Strings

  /** The checks append makes before it stores anything. */
  function Admission(md: MetaData, bufferSize: int, maxBufferSize: nat, length: nat, meta: Option<MetaData>): SetResult {
    var sanity := Sanity(md, bufferSize, meta);
    if sanity != Ok then sanity
    else if maxBufferSize > 0 && bufferSize + length > maxBufferSize then BufferFull
    else Ok
  }

  /** What happened since the last clear: whether macros may have been kept, the lines erased (as
      EraseLine counts them), the erasures that counted a line where there was none, and the bytes
      of chunks that were wiped without correcting the byte count. */
  datatype History = History(lax: bool, erased: int, phantom: nat, wiped: nat)

  class GCodeBuffer {
    const maxBucketSize: nat
    const maxBufferSize: nat
    const splitSize: nat

    var buckets: seq<string>
    var currentLine: int
    var bufferedLines: int
    var totalLinesSent: int
    var explicitTotalLines: int
    var bufferSize: int
    var md: MetaData
    var keepMacros: bool

    ghost var past: History

    ghost predicate Consistent()
      reads this
    {
      && maxBucketSize > 0
      && Stored(buckets, past.lax)
      && (keepMacros ==> past.lax)
      && bufferedLines + past.phantom == |Queue()|
      && totalLinesSent == bufferedLines + past.erased
      && currentLine <= totalLinesSent
      && bufferSize == |Flatten(buckets)| + past.wiped
    }

    ghost predicate Valid()
      reads this
    {
      && Consistent()
      && (maxBufferSize > 0 ==> bufferSize <= maxBufferSize + 1)
    }

    /** The queue of lines this buffer stands for. */
    ghost function Queue(): seq<string>
      reads this
    {
      LinesOf(buckets)
    }

    /** Lines in the front bucket. */
    ghost function FrontCount(): nat
      reads this
    {
      if buckets == [] then 0 else |CleanLines(buckets[0], true)|
    }

    constructor (maxBucketSize: nat, maxBufferSize: nat, splitSize: nat)
      requires maxBucketSize > 0
      ensures Valid() && Queue() == [] && currentLine == 0 && totalLinesSent == 0 && past.erased == 0 && past.phantom == 0
      ensures md == NO_META && !keepMacros && !past.lax && bufferSize == 0 && past.wiped == 0
      ensures this.maxBufferSize == maxBufferSize && this.maxBucketSize == maxBucketSize && this.splitSize == splitSize
    {
      this.maxBucketSize, this.maxBufferSize, this.splitSize := maxBucketSize, maxBufferSize, splitSize;
      buckets, currentLine, bufferedLines, totalLinesSent, explicitTotalLines, bufferSize := [], 0, 0, 0, -1, 0;
      md, keepMacros := NO_META, false;
      past := History(false, 0, 0, 0);
      new;
      hide CleanLines;
      NoText(true);
    }

    method SetKeepGpxMacroComments(keep: bool)
      requires Valid()
      modifies this`keepMacros, this`past
      ensures Valid() && keepMacros == keep && past.lax == (old(past.lax) || keep)
    {
      if keep {
        StoredIsLax(buckets, past.lax);
        past := past.(lax := true);
      }
      keepMacros := keep;
    }

    method Clear()
      requires Valid()
      modifies this
      ensures Valid() && Queue() == [] && currentLine == 0 && totalLinesSent == 0 && past.erased == 0 && past.phantom == 0
      ensures buckets == [] && md == NO_META && explicitTotalLines == -1 && bufferSize == 0 && past.wiped == 0
      ensures keepMacros == old(keepMacros) && past.lax == keepMacros
    {
      hide CleanLines;
      NoText(true);
      buckets := [];
      currentLine, bufferedLines, totalLinesSent := 0, 0, 0;
      explicitTotalLines := -1;
      bufferSize := 0;
      md := NO_META;
      past := History(keepMacros, 0, 0, 0);
    }

    /** Stores one piece of G-code and brings the counters up to date. */
    method AppendChunk(gcode: string)
      requires Consistent()
      modifies this`buckets, this`bufferedLines, this`totalLinesSent, this`currentLine, this`bufferSize, this`past
      ensures Consistent() && buckets != []
      ensures Queue() == old(Queue()) + CleanLines(gcode, keepMacros)
      ensures totalLinesSent == old(totalLinesSent) + |CleanLines(gcode, keepMacros)|
      ensures currentLine == old(currentLine)
      ensures buckets == AfterPiece(old(buckets), gcode, maxBucketSize, keepMacros)
      ensures past == old(past).(wiped := old(past).wiped + if Wiped(old(buckets), gcode, maxBucketSize, keepMacros) then |gcode| else 0)
      ensures bufferSize == old(bufferSize) + Growth(old(buckets), gcode, maxBucketSize, keepMacros)
    {
      hide CleanLines, LinesOf, Stored, Flatten, Wiped, AfterPiece;
      ghost var wiped := Wiped(buckets, gcode, maxBucketSize, keepMacros);
      var addedLineCount, growth;
      buckets, addedLineCount, growth := StoreChunk(buckets, gcode, maxBucketSize, keepMacros, past.lax);
      bufferSize := bufferSize + growth;
      bufferedLines := bufferedLines + addedLineCount;
      totalLinesSent := totalLinesSent + addedLineCount;
      currentLine := Min(currentLine, totalLinesSent);
      if wiped {
        past := past.(wiped := past.wiped + |gcode|);
      }
    }

    /** Splits G-code after newlines and stores the pieces. */
    method AppendPieces(gcode: string)
      requires Consistent()
      modifies this`buckets, this`bufferedLines, this`totalLinesSent, this`currentLine, this`bufferSize, this`past
      ensures Consistent()
      ensures Queue() == old(Queue()) + CleanLines(gcode, keepMacros)
      ensures totalLinesSent == old(totalLinesSent) + |CleanLines(gcode, keepMacros)|
      ensures currentLine == old(currentLine)
      ensures buckets == AfterPieces(old(buckets), gcode, 0, maxBucketSize, splitSize, keepMacros)
      ensures past == old(past).(wiped := old(past).wiped + WipedBytes(old(buckets), gcode, 0, maxBucketSize, splitSize, keepMacros))
      ensures bufferSize == old(bufferSize) + TextGrowth(old(buckets), gcode, maxBucketSize, splitSize, keepMacros)
    {
      ghost var was := buckets;
      hide CleanLines, LinesOf, Stored, Flatten, Wiped, Growth, ChunkLength, AfterPiece, AfterPieces, WipedBytes;
      NoText(keepMacros);
      var start := 0;
      while start < |gcode|
        invariant start <= |gcode| && Consistent()
        invariant start < |gcode| ==> start == 0 || gcode[start - 1] == '\n'
        invariant Queue() == old(Queue()) + CleanLines(gcode[..start], keepMacros)
        invariant totalLinesSent == old(totalLinesSent) + |CleanLines(gcode[..start], keepMacros)|
        invariant currentLine == old(currentLine)
        invariant AfterPieces(buckets, gcode, start, maxBucketSize, splitSize, keepMacros)
               == AfterPieces(old(buckets), gcode, 0, maxBucketSize, splitSize, keepMacros)
        invariant past == old(past).(wiped := past.wiped)
        invariant past.wiped + WipedBytes(buckets, gcode, start, maxBucketSize, splitSize, keepMacros)
               == old(past).wiped + WipedBytes(old(buckets), gcode, 0, maxBucketSize, splitSize, keepMacros)
      {
        var nl := Find(gcode, '\n', start + splitSize);
        var len := if nl != NPOS then nl - start + 1 else |gcode| - start;
        PieceStep(buckets, gcode, start, maxBucketSize, splitSize, len, keepMacros);
        AppendChunk(gcode[start..start + len]);
        start := start + len;
      }
      assert gcode[..start] == gcode;
      AllPiecesStored(buckets, gcode, maxBucketSize, splitSize, keepMacros);
      LinesTakeBytes(was, buckets, past.lax, CleanLines(gcode, keepMacros));
    }

    /** Accepts or rejects a piece of G-code. An accepted one adds exactly its printable lines at the
        end of the queue, however it is split and whatever the buckets hold; a rejected one changes nothing.
        The byte count ends above the limit, by one, exactly if the text fills the buffer to the last byte and
        lacks nothing but its last newline. */
    method Append(gcode: string, totalLines: int, meta: Option<MetaData>) returns (result: SetResult)
      requires Valid()
      modifies this
      ensures Valid()
      ensures result == Admission(old(md), old(bufferSize), maxBufferSize, |gcode|, meta)
      ensures result != Ok ==> unchanged(this)
      ensures result == Ok ==> Queue() == old(Queue()) + CleanLines(gcode, keepMacros)
      ensures result == Ok ==> totalLinesSent == old(totalLinesSent) + |CleanLines(gcode, keepMacros)|
      ensures result == Ok ==> md == NextMetaData(old(md), meta)
      ensures result == Ok ==> explicitTotalLines == if totalLines >= 0 then totalLines else old(explicitTotalLines)
      ensures result == Ok ==> bufferSize == old(bufferSize) + TextGrowth(old(buckets), gcode, maxBucketSize, splitSize, keepMacros)
      ensures result == Ok && maxBufferSize > 0 ==>
                (bufferSize > maxBufferSize <==> old(bufferSize) + |gcode| == maxBufferSize && LacksNewlineOnly(gcode, keepMacros))
      ensures currentLine == old(currentLine) && keepMacros == old(keepMacros)
      ensures past == old(past).(wiped := past.wiped)
      ensures result == Ok ==> past.wiped == old(past).wiped + WipedBytes(old(buckets), gcode, 0, maxBucketSize, splitSize, keepMacros)
    {
      hide CleanLines, LinesOf, Stored, Flatten, AfterPieces, WipedBytes, TextGrowth, LacksNewlineOnly, Render;
      result := Sanity(md, bufferSize, meta);
      if result != Ok {
        return;
      }
      if maxBufferSize > 0 && bufferSize + |gcode| > maxBufferSize {
        return BufferFull;
      }

      if totalLines >= 0 {
        explicitTotalLines := totalLines;
      }
      if meta.Some? {
        md := MetaData(meta.value.seqNumber, meta.value.seqTotal, if md.source.None? then meta.value.source else md.source);
      }

      GrowthIsBounded(buckets, gcode, maxBucketSize, splitSize, keepMacros);
      AppendPieces(gcode);
    }

    /** Replaces the buffer's contents; a rejected text leaves it empty. */
    method Set(gcode: string, totalLines: int, meta: Option<MetaData>) returns (result: SetResult)
      requires Valid()
      modifies this
      ensures Valid()
      ensures result == Admission(NO_META, 0, maxBufferSize, |gcode|, meta)
      ensures Queue() == if result == Ok then CleanLines(gcode, keepMacros) else []
      ensures md == if result == Ok then NextMetaData(NO_META, meta) else NO_META
      ensures explicitTotalLines == if result == Ok && totalLines >= 0 then totalLines else -1
      ensures bufferSize == if result == Ok then TextGrowth([], gcode, maxBucketSize, splitSize, keepMacros) else 0
      ensures totalLinesSent == |Queue()| && currentLine == 0 && keepMacros == old(keepMacros)
      ensures past.erased == 0 && past.phantom == 0 && past.lax == keepMacros
    {
      hide CleanLines, LinesOf, Stored, Flatten, WipedBytes, TextGrowth, LacksNewlineOnly;
      Clear();
      result := Append(gcode, totalLines, meta);
    }

    method SetCurrentLine(line: int)
      requires Valid()
      modifies this`currentLine
      ensures Valid() && currentLine == Min(line, totalLinesSent)
    {
      currentLine := Min(line, totalLinesSent);
    }

    /** Reads up to `amount` lines (at least one) from the front bucket without removing them. The text
        reads back as exactly the first `count` lines of the queue, and there are none only if the queue is empty. */
    method GetNextLine(amount: nat) returns (line: string, count: nat)
      requires Valid()
      ensures count == Granted(amount, FrontCount())
      ensures count == 0 <==> Queue() == []
      ensures count <= amount || count == 1
      ensures count < amount ==> count == FrontCount()
      ensures count <= |Queue()| && CleanLines(line, true) == Queue()[..count]
      ensures amount <= 1 && count > 0 ==> line == Queue()[0]
      ensures count == 0 ==> line == ""
    {
      hide CleanLines, Render, Canonical, AllClean, Flatten;
      if |buckets| == 0 {
        NoText(true);
        NoBuckets();
        return "", 0;
      }
      ghost var ls := FrontLines(buckets, past.lax);
      line, count := ReadFront(buckets[0], amount, ls);
      FirstOfAll(ls, LinesOf(buckets[1..]), count);
    }

    /** Removes up to `amount` lines (at least one) from the front bucket. With an empty front bucket it
        removes nothing, yet counts one line; asking that bucket for more than one is undefined. */
    method EraseLine(amount: nat) returns (count: nat)
      requires Valid()
      requires amount > 1 ==> buckets == [] || Queue() != []
      modifies this`buckets, this`bufferSize, this`bufferedLines, this`past
      ensures Valid()
      ensures old(buckets) == [] ==> count == 0 && unchanged(this)
      ensures old(Queue()) == [] ==> Queue() == [] && bufferSize == old(bufferSize)
      ensures old(Queue()) == [] && old(buckets) != [] ==> count == 1 && past == old(past).(erased := old(past).erased + 1, phantom := old(past).phantom + 1)
      ensures old(Queue()) != [] ==>
                && count == Granted(amount, old(FrontCount())) && 0 < count <= |old(Queue())|
                && Queue() == old(Queue())[count..]
                && past == old(past).(erased := old(past).erased + count)
                && bufferSize < old(bufferSize)
      ensures bufferedLines == old(bufferedLines) - count
      ensures old(Queue()) != [] ==> (count <= amount || count == 1) && (count < amount ==> count == old(FrontCount()))
    {
      hide CleanLines, Render, Canonical, AllClean, Flatten;
      if |buckets| == 0 {
        NoText(true);
        NoBuckets();
        return 0;
      }
      ghost var ls := FrontLines(buckets, past.lax);
      var b, rest := buckets[0], "";
      rest, count := CutFront(b, amount, ls);
      ghost var after := EraseFront(buckets, past.lax, ls, if ls == [] then 0 else count);
      NoLines();
      bufferSize := bufferSize - (|b| - |rest|);
      if ls != [] {
        FirstLines(ls, count);
        SuffixNotEmpty(ls, count);
      }
      buckets := if |rest| == 0 then buckets[1..] else [rest] + buckets[1..];
      bufferedLines := bufferedLines - count;
      past := past.(erased := past.erased + count, phantom := past.phantom + if ls == [] then 1 else 0);
    }
  }

  /** Why a text is rejected, or not. */
  lemma AdmissionMeans(md: MetaData, bufferSize: int, maxBufferSize: nat, length: nat, meta: Option<MetaData>)
    ensures var r := Admission(md, bufferSize, maxBufferSize, length, meta);
            && (r == BufferFull <==> Sanity(md, bufferSize, meta) == Ok && maxBufferSize > 0 && bufferSize + length > maxBufferSize)
            && (r != BufferFull ==> r == Sanity(md, bufferSize, meta))
  {
  }

  /** Every line in the queue is printable as it is: not empty, without line breaks, and, unless macros have been
      kept since the last clear, without a ';'. */
  lemma QueueHoldsNoComments(b: GCodeBuffer, j: nat)
    requires b.Valid() && j < |b.Queue()|
    ensures var l := b.Queue()[j];
            && l != "" && '\n' !in l && '\r' !in l
            && (!b.past.lax ==> ';' !in l)
            && forall i :: 0 <= i < |l| && l[i] == ';' ==> i + 1 < |l| && l[i + 1] == '@'
  {
    SameWithMacros(b.buckets, b.past.lax);
    LinesHoldNoComments(Flatten(b.buckets), b.past.lax, j);
  }
}
