/** Line framing of printer replies (src/drivers/Serial.cpp). */
module SerialPort {
  import opened Common
  import opened GCodeText
  import opened Strings

  /** The text of a raw line as the driver gets it: one trailing CR dropped, cut at a NUL. */
  function ReplyText(raw: string): string {
    UpToNul(if raw != "" && raw[|raw| - 1] == '\r' then raw[..|raw| - 1] else raw)
  }

  /** The newline-terminated lines of a byte stream. */
  function RawLines(s: string): seq<string>
    decreases |s|
  {
    var p := Find(s, '\n', 0);
    if p == NPOS then [] else [s[..p]] + RawLines(s[p + 1..])
  }

  /** What follows the last newline. */
  function Unfinished(s: string): string
    decreases |s|
  {
    var p := Find(s, '\n', 0);
    if p == NPOS then s else Unfinished(s[p + 1..])
  }

  /** A line ended by CR LF or by LF reads the same, up to its first NUL; a CR anywhere else stays. */
  lemma ReplyTextMeans(raw: string)
    ensures ReplyText(raw + "\r") == UpToNul(raw)
    ensures raw == "" || raw[|raw| - 1] != '\r' ==> ReplyText(raw) == UpToNul(raw)
  {
    assert (raw + "\r")[..|raw|] == raw;
  }

  predicate NoNewline(s: string) {
    forall i :: 0 <= i < |s| ==> s[i] != '\n'
  }

  lemma FirstRawLine(s: string, p: int)
    requires p == Find(s, '\n', 0)
    ensures p == NPOS ==> RawLines(s) == [] && Unfinished(s) == s
    ensures p != NPOS ==> RawLines(s) == [s[..p]] + RawLines(s[p + 1..]) && Unfinished(s) == Unfinished(s[p + 1..])
  {
  }

  ghost predicate NoNewlines(ls: seq<string>) {
    forall i :: 0 <= i < |ls| ==> NoNewline(ls[i])
  }

  /** Lines and remainder are the stream, cut at its newlines and nowhere else. */
  lemma {:induction false} LinesAreTheStream(s: string)
    ensures s == Render(RawLines(s)) + Unfinished(s)
    ensures NoNewlines(RawLines(s)) && NoNewline(Unfinished(s))
    decreases |s|
  {
    hide RawLines, Unfinished, NoNewline, Render;
    var p := Find(s, '\n', 0);
    FirstRawLine(s, p);
    if p == NPOS {
      NothingFound(s);
    } else {
      var rest := s[p + 1..];
      LinesAreTheStream(rest);
      CutAtNewline(s, p);
      RenderCons(s[..p], RawLines(rest));
      Regroup(s[..p] + "\n", Render(RawLines(rest)), Unfinished(rest));
    }
  }

  lemma NothingFound(s: string)
    requires Find(s, '\n', 0) == NPOS
    ensures NoNewline(s) && s == Render([]) + s
  {
  }

  lemma CutAtNewline(s: string, p: nat)
    requires Find(s, '\n', 0) == p && p < |s|
    ensures s == (s[..p] + "\n") + s[p + 1..] && NoNewline(s[..p])
  {
  }

  lemma RenderCons(l: string, ls: seq<string>)
    ensures Render([l] + ls) == l + "\n" + Render(ls)
  {
    assert ([l] + ls)[1..] == ls;
  }

  /** Reading more data extends the lines and never changes those already framed. */
  lemma {:induction false} FramingContinues(a: string, b: string)
    ensures RawLines(a + b) == RawLines(a) + RawLines(Unfinished(a) + b)
    ensures Unfinished(a + b) == Unfinished(Unfinished(a) + b)
    decreases |a|
  {
    hide RawLines, Unfinished;
    var p := Find(a, '\n', 0);
    FirstRawLine(a, p);
    if p != NPOS {
      FoundInPrefix(a, b, p);
      FirstRawLine(a + b, p);
      FramingContinues(a[p + 1..], b);
    }
  }

  lemma FoundInPrefix(a: string, b: string, p: nat)
    requires p < |a| && Find(a, '\n', 0) == p
    ensures Find(a + b, '\n', 0) == p
    ensures (a + b)[..p] == a[..p] && (a + b)[p + 1..] == a[p + 1..] + b
  {
    assert forall i :: 0 <= i < p ==> (a + b)[i] == a[i];
    assert (a + b)[p] == '\n';
  }

  /** The lines handed on when a stream arrives in several reads, and the text left over. */
  function LinesOfReads(pending: string, arrivals: seq<string>): seq<string>
    decreases |arrivals|
  {
    if arrivals == [] then [] else RawLines(pending + arrivals[0]) + LinesOfReads(Unfinished(pending + arrivals[0]), arrivals[1..])
  }

  /** However the stream is split into reads, the same lines come out. */
  lemma {:induction false} ReadSizesDoNotMatter(pending: string, arrivals: seq<string>)
    requires NoNewline(pending)
    ensures LinesOfReads(pending, arrivals) == RawLines(pending + Flatten(arrivals))
    decreases |arrivals|
  {
    hide RawLines, Unfinished, NoNewline;
    if arrivals == [] {
      assert pending + Flatten(arrivals) == pending;
      NewlineFound(pending);
      FirstRawLine(pending, NPOS);
    } else {
      var now := pending + arrivals[0];
      LinesAreTheStream(now);
      ReadSizesDoNotMatter(Unfinished(now), arrivals[1..]);
      FramingContinues(now, Flatten(arrivals[1..]));
      Regroup(pending, arrivals[0], Flatten(arrivals[1..]));
    }
  }

  lemma NewlineFound(s: string)
    ensures NoNewline(s) <==> Find(s, '\n', 0) == NPOS
  {
  }

  class Serial {
    var buffer: string

    constructor ()
      ensures buffer == ""
    {
      buffer := "";
    }

    /** A read appends whatever bytes have arrived. */
    method ReadData(data: string) returns (rv: nat)
      modifies this
      ensures buffer == old(buffer) + data && rv == |data|
    {
      buffer := buffer + data;
      rv := |data|;
    }

    /** Takes the first line off the buffer, if there is a complete one. For a line of length zero the
        program also looks at the byte before the copy; that read is not modelled. */
    method ExtractLine() returns (line: Option<string>)
      modifies this
      ensures line.None? <==> NoNewline(old(buffer))
      ensures line.None? ==> buffer == old(buffer)
      ensures line.Some? ==>
                && RawLines(old(buffer)) != []
                && line.value == ReplyText(RawLines(old(buffer))[0])
                && RawLines(old(buffer))[1..] == RawLines(buffer)
                && Unfinished(old(buffer)) == Unfinished(buffer)
                && |buffer| < |old(buffer)|
    {
      hide RawLines, Unfinished;
      var p := 0;
      while p < |buffer|
        invariant p <= |buffer| && buffer == old(buffer)
        invariant forall i :: 0 <= i < p ==> buffer[i] != '\n'
      {
        if buffer[p] == '\n' {
          break;
        }
        p := p + 1;
      }
      if p == |buffer| {
        return None;
      }
      var lineCopy := buffer[..p];
      assert Find(buffer, '\n', 0) == p;
      FirstRawLine(buffer, p);
      if p > 0 && lineCopy[p - 1] == '\r' {
        lineCopy := lineCopy[..p - 1];
      }
      line := Some(UpToNul(lineCopy));
      buffer := buffer[p + 1..];
    }
  }
}
