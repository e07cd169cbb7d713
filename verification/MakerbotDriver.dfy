/** The Makerbot driver's path from G-code lines to packets (src/drivers/MakerbotDriver.cpp): draining
    the buffer through the converter, and refilling the printer's buffer from the command queue. */
module Makerbot {
  import opened Buckets
  import opened Common
  import opened Crc
  import opened GCodeBuffers
  import opened GCodeText
  import opened MarlinSpec
  import opened Metadata
  import opened S3G
  import opened StoredText

  const PRINTER_BUFFER_SIZE := 512
  const REFILL_THRESHOLD := 480
  const QUEUE_MIN_SIZE := 10
  const QUEUE_FILL_SIZE := 30
  const GCODE_CVT_LINES := 25
  const SPACE_QUERY: bv8 := 2
  const MAX_TRIES := 5

  const WORD := 0x1_0000_0000

  /** Unsigned 32-bit subtraction. */
  function Sub32(a: nat, b: nat): (r: nat)
    ensures r < WORD
    ensures b <= a < WORD ==> r == a - b
  {
    (a - b) % WORD
  }

  /** An unsigned 32-bit number returned as an int. */
  function AsInt(a: nat): int
    requires a < WORD
  {
    if a < 0x8000_0000 then a else a - WORD
  }

  function Opcode(command: Frame): bv8 {
    if command == [] then 0 else command[0]
  }

  function TotalSize(commands: seq<Frame>): nat {
    if commands == [] then 0 else |commands[0]| + TotalSize(commands[1..])
  }

  /** What comes back for one attempt to send a packet: a valid response, which for a space query holds the free
      space; nothing or an empty packet, which counts as success; a response whose check byte is wrong; or an error. */
  datatype Response = Intact(value: nat) | Silent | Corrupt | Failed

  /** The responses to the attempts to send one packet, and to the packets of a refill. */
  type Responses = nat -> Response
  type Answers = nat -> Responses

  /** How often a packet is sent when n attempts have failed: again after every error, five times at most. */
  function Attempts(responses: Responses, n: nat): (r: nat)
    requires n < MAX_TRIES
    ensures n < r <= MAX_TRIES
    ensures forall j :: n <= j < r - 1 ==> responses(j) == Failed
    ensures r < MAX_TRIES ==> responses(r - 1) != Failed
    decreases MAX_TRIES - n
  {
    if n + 1 == MAX_TRIES || responses(n) != Failed then n + 1 else Attempts(responses, n + 1)
  }

  /** The value reported in the end, if the last response is valid. */
  function Value(responses: Responses): Option<nat> {
    var last := responses(Attempts(responses, 0) - 1);
    if last.Intact? then Some(last.value) else None
  }

  function Repeated(packet: Frame, n: nat): (ps: seq<Frame>)
    ensures |ps| == n && forall i :: 0 <= i < n ==> ps[i] == packet
  {
    seq(n, i requires 0 <= i < n => packet)
  }

  /** The free space as it is kept after a packet has been sent and answered. */
  function SpaceAfter(space: nat, command: Frame, answer: Option<nat>): (r: nat)
    requires space < WORD
    ensures r < WORD
  {
    if Opcode(command) == SPACE_QUERY && answer.Some? then answer.value % WORD else Sub32(space, |command|)
  }

  /** What the responses to one packet do, by the first attempt that does not fail, or by the fifth. A valid answer
      to a space query sets the space; anything else takes the length of the packet off it, once, modulo 2^32. */
  lemma ResponsesMean(space: nat, command: Frame, responses: Responses, n: nat)
    requires space < 0x1_0000_0000 && n <= 5
    requires (forall j :: 0 <= j < n ==> responses(j) == Failed) && (n < 5 ==> responses(n) != Failed)
    ensures Attempts(responses, 0) == if n < 5 then n + 1 else 5
    ensures SpaceAfter(space, command, Value(responses)) ==
            if n < 5 && responses(n).Intact? && command != [] && command[0] == 2 then responses(n).value % 0x1_0000_0000
            else (space - |command|) % 0x1_0000_0000
    ensures Value(responses) == if n < 5 && responses(n).Intact? then Some(responses(n).value) else None
  {
    assert n > 0 ==> responses(n - 1) == Failed;
    assert Attempts(responses, 0) == if n < 5 then n + 1 else 5;
    hide Attempts;
  }

  // ---------------------------------------------------------------- one refill

  /** What one refill does: how many commands it sends, the space left, and whether `space - 5` ever wrapped. */
  datatype Refilled = Refilled(sent: nat, space: nat, wrapped: bool)

  function Refill(queue: seq<Frame>, space: nat, answers: Answers, k: nat): (r: Refilled)
    requires space < WORD
    ensures r.sent <= |queue|
    decreases |queue|
  {
    if queue == [] then Refilled(0, space, false)
    else if |queue[0]| > Sub32(space, 5) then Refilled(0, space, space < 5)
    else
      var r := Refill(queue[1..], SpaceAfter(space, queue[0], Value(answers(k))), answers, k + 1);
      Refilled(r.sent + 1, r.space, space < 5 || r.wrapped)
  }

  lemma {:induction false} SizeIsLength(commands: seq<Frame>)
    ensures TotalSize(commands) == |Flatten(commands)|
  {
    if commands != [] {
      SizeIsLength(commands[1..]);
    }
  }

  predicate NoQueries(queue: seq<Frame>) {
    forall i :: 0 <= i < |queue| ==> Opcode(queue[i]) != SPACE_QUERY
  }

  /** With no space query in the queue, a refill sends the longest prefix of the queue that leaves five bytes
      free, keeps exact account of the space, and its unsigned arithmetic never wraps. */
  lemma {:induction false} RefillIsGreedy(queue: seq<Frame>, space: nat, answers: Answers, k: nat)
    requires 5 <= space < WORD && NoQueries(queue)
    ensures var r := Refill(queue, space, answers, k);
            && !r.wrapped
            && TotalSize(queue[..r.sent]) + 5 <= space
            && r.space == space - TotalSize(queue[..r.sent])
            && (r.sent < |queue| ==> TotalSize(queue[..r.sent + 1]) + 5 > space)
    decreases |queue|
  {
    hide TotalSize, SpaceAfter, Sub32, Opcode;
    if queue != [] && |queue[0]| <= space - 5 {
      SpaceLeft(space, queue[0], Value(answers(k)));
      RefillIsGreedy(queue[1..], space - |queue[0]|, answers, k + 1);
      var n := Refill(queue[1..], space - |queue[0]|, answers, k + 1).sent;
      PrefixSize(queue, n);
      if n + 1 < |queue| {
        PrefixSize(queue, n + 1);
      }
    } else {
      OneSize(queue);
    }
  }

  lemma SpaceLeft(space: nat, command: Frame, answer: Option<nat>)
    requires |command| <= space < WORD && Opcode(command) != SPACE_QUERY
    ensures SpaceAfter(space, command, answer) == space - |command|
  {
  }

  lemma OneSize(queue: seq<Frame>)
    ensures TotalSize([]) == 0
    ensures queue != [] ==> TotalSize(queue[..1]) == |queue[0]|
  {
    if queue != [] {
      assert queue[..1] == [queue[0]] && [queue[0]][1..] == [];
    }
  }

  lemma PrefixSize(queue: seq<Frame>, n: nat)
    requires n + 1 <= |queue|
    ensures TotalSize(queue[..n + 1]) == |queue[0]| + TotalSize(queue[1..][..n])
  {
    assert queue[..n + 1][1..] == queue[1..][..n];
  }

  /** The space after the first j commands of the queue have been sent and answered. */
  function SpaceAt(queue: seq<Frame>, space: nat, answers: Answers, k: nat, j: nat): (r: nat)
    requires space < WORD && j <= |queue|
    ensures r < WORD
    decreases j
  {
    if j == 0 then space else SpaceAt(queue[1..], SpaceAfter(space, queue[0], Value(answers(k))), answers, k + 1, j - 1)
  }

  /** The subtraction wraps at the j-th command: every command before it fits, and then less than five bytes are left. */
  predicate WrapsAt(queue: seq<Frame>, space: nat, answers: Answers, k: nat, j: nat)
    requires space < WORD && j < |queue|
  {
    && SpaceAt(queue, space, answers, k, j) < 5
    && forall m :: 0 <= m < j ==> 5 + |queue[m]| <= SpaceAt(queue, space, answers, k, m)
  }

  lemma NextSpace(queue: seq<Frame>, space: nat, answers: Answers, k: nat, j: nat)
    requires space < WORD && j < |queue|
    ensures SpaceAt(queue, space, answers, k, 0) == space
    ensures SpaceAt(queue, space, answers, k, j + 1) == SpaceAt(queue[1..], SpaceAfter(space, queue[0], Value(answers(k))), answers, k + 1, j)
  {
  }

  lemma WrapsLater(queue: seq<Frame>, space: nat, answers: Answers, k: nat, j: nat)
    requires space < WORD && j + 1 < |queue| && 5 + |queue[0]| <= space
    ensures WrapsAt(queue, space, answers, k, j + 1) <==> WrapsAt(queue[1..], SpaceAfter(space, queue[0], Value(answers(k))), answers, k + 1, j)
  {
    hide SpaceAt, SpaceAfter;
    var rest, space' := queue[1..], SpaceAfter(space, queue[0], Value(answers(k)));
    forall m | 0 <= m <= j
      ensures SpaceAt(queue, space, answers, k, m + 1) == SpaceAt(rest, space', answers, k + 1, m) && queue[m + 1] == rest[m]
    {
      NextSpace(queue, space, answers, k, m);
    }
    NextSpace(queue, space, answers, k, 0);
    NextSpace(queue, space, answers, k, j);
    if WrapsAt(queue, space, answers, k, j + 1) {
      forall m | 0 <= m < j
        ensures 5 + |rest[m]| <= SpaceAt(rest, space', answers, k + 1, m)
      {
        assert 5 + |queue[m + 1]| <= SpaceAt(queue, space, answers, k, m + 1);
      }
    }
    if WrapsAt(rest, space', answers, k + 1, j) {
      forall m | 0 <= m < j + 1
        ensures 5 + |queue[m]| <= SpaceAt(queue, space, answers, k, m)
      {
        if m > 0 {
          NextSpace(queue, space, answers, k, m - 1);
          assert 5 + |rest[m - 1]| <= SpaceAt(rest, space', answers, k + 1, m - 1);
        }
      }
    }
  }

  lemma WrapsNow(queue: seq<Frame>, space: nat, answers: Answers, k: nat, j: nat)
    requires space < WORD && j < |queue|
    ensures j == 0 ==> (WrapsAt(queue, space, answers, k, j) <==> space < 5)
    ensures j > 0 && WrapsAt(queue, space, answers, k, j) ==> 5 + |queue[0]| <= space
  {
    hide SpaceAfter;
    NextSpace(queue, space, answers, k, 0);
  }

  /** In general, for any queue, space and answers: the unsigned subtraction of a refill wraps exactly if at some
      command all those before it have fitted and less than five bytes are left. */
  lemma {:induction false} WrapsWhenFivesAreShort(queue: seq<Frame>, space: nat, answers: Answers, k: nat)
    requires space < WORD
    ensures Refill(queue, space, answers, k).wrapped <==> exists j :: 0 <= j < |queue| && WrapsAt(queue, space, answers, k, j)
    decreases |queue|
  {
    hide WrapsAt, SpaceAt, SpaceAfter;
    if queue != [] {
      var rest, space' := queue[1..], SpaceAfter(space, queue[0], Value(answers(k)));
      forall j | 0 <= j < |queue|
        ensures j == 0 ==> (WrapsAt(queue, space, answers, k, j) <==> space < 5)
        ensures j > 0 && WrapsAt(queue, space, answers, k, j) ==> 5 + |queue[0]| <= space
      {
        WrapsNow(queue, space, answers, k, j);
      }
      assert WrapsAt(queue, space, answers, k, 0) <==> space < 5;
      if 5 + |queue[0]| <= space {
        WrapsWhenFivesAreShort(rest, space', answers, k + 1);
        var k' := k + 1;
        forall j | 0 <= j < |rest|
          ensures WrapsAt(queue, space, answers, k, j + 1) <==> WrapsAt(rest, space', answers, k', j)
        {
          WrapsLater(queue, space, answers, k, j);
        }
        if exists j :: 0 <= j < |queue| && WrapsAt(queue, space, answers, k, j) {
          var j :| 0 <= j < |queue| && WrapsAt(queue, space, answers, k, j);
          assert WrapsAt(rest, space', answers, k', j - 1);
        }
        if exists j :: 0 <= j < |rest| && WrapsAt(rest, space', answers, k', j) {
          var j :| 0 <= j < |rest| && WrapsAt(rest, space', answers, k', j);
          assert WrapsAt(queue, space, answers, k, j + 1);
        }
      }
    }
  }

  /** That only happens after a space query that was sent from the queue itself was answered with less than five. */
  lemma {:induction false} WrapsOnlyAfterShortAnswer(queue: seq<Frame>, space: nat, answers: Answers, k: nat, j: nat)
    requires 5 <= space < WORD && j < |queue| && WrapsAt(queue, space, answers, k, j)
    ensures j > 0 && Opcode(queue[j - 1]) == SPACE_QUERY
    ensures Value(answers(k + j - 1)).Some? && Value(answers(k + j - 1)).value % WORD < 5
    decreases j
  {
    WrapsNow(queue, space, answers, k, j);
    WrapsLater(queue, space, answers, k, j - 1);
    var space' := SpaceAfter(space, queue[0], Value(answers(k)));
    WrapsNow(queue[1..], space', answers, k + 1, j - 1);
    if j > 1 {
      WrapsOnlyAfterShortAnswer(queue[1..], space', answers, k + 1, j - 1);
    }
  }

  /** And then there is no limit: the next command is sent although there is no room for it. */
  lemma WrappedRefillGoesOn(queue: seq<Frame>, space: nat, answers: Answers, k: nat)
    requires space < 5 && queue != [] && |queue[0]| <= 0xFFFF_FFFB
    ensures Refill(queue, space, answers, k).sent > 0
  {
  }

  /** A queue and an answer for which it does wrap. */
  lemma WrappingRefill(k: nat)
    ensures Refill([[SPACE_QUERY], [151, 0]], PRINTER_BUFFER_SIZE, _ => _ => Intact(0), k).wrapped
  {
    var queue: seq<Frame> := [[SPACE_QUERY], [151, 0]];
    assert queue[1..] == [[151, 0]] && [[151, 0]][1..] == [];
    assert Refill(queue[1..], 0, _ => _ => Intact(0), k + 1).wrapped;
  }

  // ------------------------------------------------------------------ the drain

  /** The lines of the texts handed to the converter. */
  function LinesOfTexts(texts: seq<string>): seq<string> {
    if texts == [] then [] else CleanLines(texts[0], true) + LinesOfTexts(texts[1..])
  }

  lemma {:induction false} OneTextMore(texts: seq<string>, t: string)
    ensures LinesOfTexts(texts + [t]) == LinesOfTexts(texts) + CleanLines(t, true)
  {
    hide CleanLines;
    if texts == [] {
      assert [t][1..] == [];
    } else {
      assert (texts + [t])[0] == texts[0] && (texts + [t])[1..] == texts[1..] + [t];
      OneTextMore(texts[1..], t);
    }
  }

  /** gpx_convert, a foreign library: any function from text to command bytes that the parser can read. */
  type Converter = string -> Frame

  ghost predicate Readable(gpx: Converter) {
    forall t :: Parsable(gpx(t))
  }

  function CommandsOf(gpx: Converter, text: string): seq<Frame> {
    if Parsable(gpx(text)) then Parsed(gpx(text)) else []
  }

  function CommandsOfAll(gpx: Converter, texts: seq<string>): seq<Frame> {
    if texts == [] then [] else CommandsOf(gpx, texts[0]) + CommandsOfAll(gpx, texts[1..])
  }

  lemma {:induction false} OneConversionMore(gpx: Converter, texts: seq<string>, t: string)
    ensures CommandsOfAll(gpx, texts + [t]) == CommandsOfAll(gpx, texts) + CommandsOf(gpx, t)
  {
    hide CommandsOf;
    if texts == [] {
      assert [t][1..] == [];
    } else {
      assert (texts + [t])[0] == texts[0] && (texts + [t])[1..] == texts[1..] + [t];
      OneConversionMore(gpx, texts[1..], t);
    }
  }

  // ----------------------------------------------------------------- the driver

  class MakerbotDriver {
    const gcodeBuffer: GCodeBuffer
    const parser: S3GParser
    const gpx: Converter

    var state: State
    var queue: seq<Frame>
    var bufferSpace: nat
    var wire: seq<Frame>

    // Since the last clear: the lines received, the texts handed to the converter, and the commands sent to
    // the printer.
    ghost var received: seq<string>
    ghost var converted: seq<string>
    ghost var sent: seq<Frame>

    /** Nothing is lost, repeated or reordered on the way from the lines received to the commands sent. */
    ghost predicate Valid()
      reads this, gcodeBuffer, parser
    {
      && gcodeBuffer.Valid() && gcodeBuffer.keepMacros
      && gcodeBuffer.past.phantom == 0 && 0 <= gcodeBuffer.past.erased && gcodeBuffer.currentLine <= gcodeBuffer.past.erased
      && parser.commands == []
      && bufferSpace < WORD
      && Readable(gpx)
      && LinesOfTexts(converted) + gcodeBuffer.Queue() == received
      && sent + queue == CommandsOfAll(gpx, converted)
    }

    constructor (maxBucketSize: nat, maxBufferSize: nat, splitSize: nat, gpx: Converter)
      requires maxBucketSize > 0 && Readable(gpx)
      ensures Valid() && fresh(gcodeBuffer) && fresh(parser)
      ensures received == [] && queue == [] && wire == [] && bufferSpace == PRINTER_BUFFER_SIZE && state == Disconnected
    {
      gcodeBuffer := new GCodeBuffer(maxBucketSize, maxBufferSize, splitSize);
      parser := new S3GParser();
      this.gpx := gpx;
      state, queue, bufferSpace, wire := Disconnected, [], PRINTER_BUFFER_SIZE, [];
      received, converted, sent := [], [], [];
      new;
      gcodeBuffer.SetKeepGpxMacroComments(true);
    }

    /** An accepted text adds its printable lines, macros included, to those received. */
    method AppendGCode(gcode: string, totalLines: int, meta: Option<MetaData>) returns (result: SetResult)
      requires Valid()
      modifies this`state, this`received, gcodeBuffer
      ensures Valid()
      ensures result == Admission(old(gcodeBuffer.md), old(gcodeBuffer.bufferSize), gcodeBuffer.maxBufferSize, |gcode|, meta)
      ensures received == if result == Ok then old(received) + CleanLines(gcode, true) else old(received)
      ensures state == if result == Ok && old(state) == Idle then Buffering else old(state)
    {
      hide CleanLines, LinesOfTexts, CommandsOfAll, Readable, TextGrowth, WipedBytes, LacksNewlineOnly;
      result := gcodeBuffer.Append(gcode, totalLines, meta);
      if result == Ok {
        if state == Idle {
          state := Buffering;
        }
        MoreReceived(LinesOfTexts(converted), old(gcodeBuffer.Queue()), CleanLines(gcode, true));
        received := received + CleanLines(gcode, true);
      }
    }

    /** Drops everything that is not yet on the wire. */
    method ClearGCode()
      requires Valid()
      modifies this`state, this`queue, this`received, this`converted, this`sent, gcodeBuffer
      ensures Valid() && received == [] && queue == [] && gcodeBuffer.Queue() == []
      ensures state == if old(state) == Buffering || Active(old(state)) then Idle else old(state)
    {
      hide Readable, CleanLines;
      gcodeBuffer.Clear();
      if state == Buffering || state == Printing || state == Stopping {
        state := Idle;
      }
      queue := [];
      received, converted, sent := [], [], [];
    }

    /** Starts a print; nothing is sent before the next round. */
    method StartPrint() returns (started: bool)
      requires Valid()
      modifies this`state, gcodeBuffer`currentLine
      ensures Valid() && started == Online(old(state))
      ensures state == if started then Printing else old(state)
      ensures gcodeBuffer.currentLine == if started && !Active(old(state)) then 0 else old(gcodeBuffer.currentLine)
    {
      if !Online(state) {
        return false;
      }
      if state != Printing && state != Stopping {
        state := Idle;
        gcodeBuffer.SetCurrentLine(0);
      }
      state := Printing;
      return true;
    }

    /** Converts a text and queues its commands; nothing is converted for an empty text. */
    method ConvertGCode(gcode: string)
      requires parser.commands == [] && Readable(gpx)
      modifies this`queue, this`converted, parser
      ensures parser.commands == []
      ensures gcode == "" ==> queue == old(queue) && converted == old(converted)
      ensures gcode != "" ==> queue == old(queue) + CommandsOf(gpx, gcode) && converted == old(converted) + [gcode]
    {
      if |gcode| == 0 {
        return;
      }
      converted := converted + [gcode];
      var bytes := gpx(gcode);
      assert Parsable(bytes);
      parser.SetBuffer(bytes);
      parser.ParseAll();
      assert [] + Parsed(bytes) == Parsed(bytes);
      queue := queue + parser.commands;
      parser.commands := [];
    }

    /** The fill loop of update: reads lines, converts them, and erases what was read. No line is lost, repeated
        or reordered: what has been handed to the converter, followed by what is still queued, stays the same.
        Every line is counted; the progress never has to be cut down to the lines received. */
    method Fill()
      requires Valid()
      modifies this`queue, this`converted, gcodeBuffer, parser
      ensures Valid()
      ensures old(queue) <= queue && old(converted) <= converted
      ensures gcodeBuffer.Queue() == [] || |queue| >= 30
      ensures forall j :: |old(converted)| <= j < |converted| ==> 0 < |CleanLines(converted[j], true)| <= 25
      ensures gcodeBuffer.currentLine == old(gcodeBuffer.currentLine) + |old(gcodeBuffer.Queue())| - |gcodeBuffer.Queue()|
    {
      hide LinesOfTexts, CommandsOf, CleanLines, Readable, CommandsOfAll;
      var amt: int := -1;
      while amt != 0 && |queue| < QUEUE_FILL_SIZE
        invariant Valid()
        invariant old(queue) <= queue && old(converted) <= converted
        invariant amt == 0 ==> gcodeBuffer.Queue() == []
        invariant forall j :: |old(converted)| <= j < |converted| ==> 0 < |CleanLines(converted[j], true)| <= 25
        invariant gcodeBuffer.currentLine == old(gcodeBuffer.currentLine) + |old(gcodeBuffer.Queue())| - |gcodeBuffer.Queue()|
        decreases |gcodeBuffer.Queue()|, amt != 0
      {
        var lines, count := gcodeBuffer.GetNextLine(GCODE_CVT_LINES);
        amt := count;
        ghost var before, was, had := gcodeBuffer.Queue(), converted, queue;
        ConvertGCode(lines);
        if amt > 0 {
          CountedText(lines, before, count);
          OneTextMore(was, lines);
          OneConversionMore(gpx, was, lines);
          RegroupCommands(sent, had, CommandsOf(gpx, lines));
          var _ := gcodeBuffer.EraseLine(amt);
          gcodeBuffer.SetCurrentLine(gcodeBuffer.currentLine + amt);
        }
      }
    }

    /** Sends one packet, again after every error, but five times at most. Its length comes off the space once,
        however often it is sent. */
    method SendPacket(payload: Frame, responses: Responses) returns (ok: bool)
      requires bufferSpace < WORD
      modifies this`bufferSpace, this`wire
      ensures bufferSpace == SpaceAfter(old(bufferSpace), payload, Value(responses))
      ensures wire == old(wire) + Repeated(Packet(payload), Attempts(responses, 0))
      ensures ok <==> responses(Attempts(responses, 0) - 1).Intact? || responses(Attempts(responses, 0) - 1).Silent?
    {
      hide Packet, Sub32, Attempts, Repeated, Opcode;
      NeverSent(wire, payload);
      var pktBuf := MakePacket(payload);
      bufferSpace := Sub32(bufferSpace, |payload|);
      var tries := 0;
      ok := false;
      while tries < MAX_TRIES
        invariant tries <= MAX_TRIES && !ok
        invariant tries == MAX_TRIES ==> Attempts(responses, 0) == MAX_TRIES && responses(MAX_TRIES - 1) == Failed
        invariant tries < MAX_TRIES ==> Attempts(responses, 0) == Attempts(responses, tries)
        invariant wire == old(wire) + Repeated(pktBuf, tries)
        invariant bufferSpace == Sub32(old(bufferSpace), |payload|)
        decreases MAX_TRIES - tries
      {
        wire := wire + [pktBuf];
        SentAgain(old(wire), pktBuf, tries);
        NextAttempt(responses, tries);
        var response := responses(tries);
        tries := tries + 1;
        if response != Failed {
          if response.Intact? && Opcode(payload) == SPACE_QUERY {
            bufferSpace := response.value % WORD;
          }
          ok := response != Corrupt;
          break;
        }
      }
    }

    method RequestBufferSpace(responses: Responses) returns (space: int)
      requires bufferSpace < WORD
      modifies this`bufferSpace, this`wire
      ensures bufferSpace == SpaceAfter(old(bufferSpace), [SPACE_QUERY], Value(responses))
      ensures wire == old(wire) + Repeated(Packet([SPACE_QUERY]), Attempts(responses, 0))
      ensures space == AsInt(bufferSpace)
    {
      var _ := SendPacket([SPACE_QUERY], responses);
      space := AsInt(bufferSpace);
    }

    /** Asks for the free space, then sends as many queued commands as a refill may; with nothing queued, the
        print is over once the printer's own buffer is empty. */
    method ProcessQueue(answers: Answers)
      requires bufferSpace < WORD
      modifies this`bufferSpace, this`wire, this`queue, this`state, this`sent
      ensures bufferSpace < WORD
      ensures sent + queue == old(sent) + old(queue) && old(sent) <= sent
      ensures wire == old(wire) + Repeated(Packet([SPACE_QUERY]), Attempts(answers(0), 0)) + PacketsOf(sent[|old(sent)|..], answers)
      ensures Value(answers(0)).Some? && Value(answers(0)).value < 0x8000_0000 ==>
                var v, more := Value(answers(0)).value, sent[|old(sent)|..];
                && (v <= 480 ==> more == [])
                && (v < 512 || old(queue) != [] ==> state == old(state))
                && (v >= 512 && old(queue) == [] ==> state == Idle)
                && (v > 480 && NoQueries(old(queue)) ==>
                      && |Flatten(more)| + 5 <= v && bufferSpace == v - |Flatten(more)|
                      && (queue != [] ==> |Flatten(more)| + |queue[0]| + 5 > v))
      ensures Value(answers(0)).Some? && 0x8000_0000 <= Value(answers(0)).value < 0x1_0000_0000 ==>
                sent == old(sent) && queue == old(queue) && state == old(state)
      ensures var space := SpaceAfter(old(bufferSpace), [SPACE_QUERY], Value(answers(0)));
              && (AsInt(space) > REFILL_THRESHOLD ==>
                    && |sent| - |old(sent)| == Refill(old(queue), space, answers, 1).sent
                    && bufferSpace == Refill(old(queue), space, answers, 1).space)
              && (AsInt(space) <= REFILL_THRESHOLD ==> sent == old(sent) && bufferSpace == space)
              && state == (if old(queue) == [] && AsInt(space) >= PRINTER_BUFFER_SIZE then Idle else old(state))
    {
      hide Packet, PacketsOf, SpaceAfter, Sub32, Refill, Attempts, Value, TotalSize, Flatten, NoQueries;
      ReportedSpace(bufferSpace, Value(answers(0)));
      var space := RequestBufferSpace(answers(0));
      if |queue| > 0 {
        if space > REFILL_THRESHOLD {
          SendWhatFits(answers);
        } else {
          NoPackets(answers);
          assert sent[|sent|..] == [];
        }
      } else {
        NoPackets(answers);
        FlattenNone<bv8>();
        NothingSent(queue, bufferSpace, answers);
        assert sent[|sent|..] == [];
        if space >= PRINTER_BUFFER_SIZE {
          state := Idle;
        }
      }
    }

    /** The refill loop. */
    method SendWhatFits(answers: Answers)
      requires bufferSpace < WORD
      modifies this`bufferSpace, this`wire, this`queue, this`sent
      ensures bufferSpace < WORD
      ensures sent + queue == old(sent) + old(queue) && old(sent) <= sent
      ensures wire == old(wire) + PacketsOf(sent[|old(sent)|..], answers)
      ensures |sent| - |old(sent)| == Refill(old(queue), old(bufferSpace), answers, 1).sent
      ensures bufferSpace == Refill(old(queue), old(bufferSpace), answers, 1).space
      ensures 480 < old(bufferSpace) < 0x8000_0000 && NoQueries(old(queue)) ==>
                var more := sent[|old(sent)|..];
                && |Flatten(more)| + 5 <= old(bufferSpace) && bufferSpace == old(bufferSpace) - |Flatten(more)|
                && (queue != [] ==> |Flatten(more)| + |queue[0]| + 5 > old(bufferSpace))
    {
      hide Packet, PacketsOf, SpaceAfter, Sub32, Refill, SameRest, Opcode, Attempts, Value, Repeated, NoQueries, Flatten;
      ghost var now: seq<Frame> := [];
      assert sent + now == sent;
      NoPackets(answers);
      NothingSent(queue, bufferSpace, answers);
      var k := 1;
      while true
        invariant bufferSpace < WORD
        invariant k == 1 + |now|
        invariant now + queue == old(queue) && sent == old(sent) + now
        invariant wire == old(wire) + PacketsOf(now, answers)
        invariant SameRest(old(queue), old(bufferSpace), queue, bufferSpace, answers, k)
        decreases |queue|
      {
        RefillStops(old(queue), old(bufferSpace), queue, bufferSpace, answers, k);
        if |queue| == 0 {
          break;
        }
        var command := queue[0];
        if |command| > Sub32(bufferSpace, 5) {
          break;
        }
        NextSent(old(queue), old(bufferSpace), queue, bufferSpace, answers, k);
        OnePacketMore(now, command, answers);
        HeadMoves(old(sent), now, queue);
        now := now + [command];
        sent := sent + [command];
        queue := queue[1..];
        var _ := SendPacket(command, answers(k));
        k := k + 1;
      }
      assert sent[|old(sent)|..] == now;
      if 480 < old(bufferSpace) < 0x8000_0000 && NoQueries(old(queue)) {
        FreeSpace(old(bufferSpace), old(queue), now, queue, answers);
      }
    }

    /** One round of the driver. Lines become texts, texts become commands and commands become packets; whatever
        the answers, Valid says after any number of rounds that each step keeps order and loses nothing. The print
        is called finished only when everything received has been converted and sent. */
    method Update(answers: Answers)
      requires Valid()
      modifies this`queue, this`converted, this`bufferSpace, this`wire, this`state, this`sent, gcodeBuffer, parser
      ensures Valid()
      ensures old(converted) <= converted && old(sent) <= sent
      ensures !Active(old(state)) ==> wire == old(wire) && sent == old(sent) && state == old(state)
      ensures Active(old(state)) ==> wire == old(wire) + Repeated(Packet([SPACE_QUERY]), Attempts(answers(0), 0)) + PacketsOf(sent[|old(sent)|..], answers)
      ensures |old(queue)| >= 10 ==> converted == old(converted)
      ensures Active(old(state)) && |old(queue)| < 10 ==> gcodeBuffer.Queue() == [] || |sent| - |old(sent)| + |queue| >= 30
      ensures state != old(state) ==> state == Idle && received == LinesOfTexts(converted) && sent == CommandsOfAll(gpx, converted)
      ensures gcodeBuffer.currentLine == old(gcodeBuffer.currentLine) + |old(gcodeBuffer.Queue())| - |gcodeBuffer.Queue()|
    {
      hide LinesOfTexts, CommandsOf, CleanLines, Readable, CommandsOfAll, Packet, PacketsOf, SpaceAfter, Sub32, Refill, Attempts, Value;
      if Active(state) && |queue| < QUEUE_MIN_SIZE {
        Fill();
      }
      if Active(state) {
        ProcessQueue(answers);
      }
    }
  }

  lemma ReportedSpace(space: nat, answer: Option<nat>)
    requires space < WORD
    ensures answer.Some? && answer.value < 0x8000_0000 ==>
              SpaceAfter(space, [SPACE_QUERY], answer) == answer.value && AsInt(answer.value) == answer.value
    ensures answer.Some? && 0x8000_0000 <= answer.value < 0x1_0000_0000 ==>
              SpaceAfter(space, [SPACE_QUERY], answer) == answer.value && AsInt(answer.value) < 0
  {
  }

  /** No command of the queue has opcode 2. */
  lemma NoQueriesMeans(queue: seq<Frame>)
    ensures NoQueries(queue) <==> forall j :: 0 <= j < |queue| ==> queue[j] == [] || queue[j][0] != 2
  {
  }

  /** A refill in terms of the free space that was reported. */
  lemma FreeSpace(v: nat, queue: seq<Frame>, more: seq<Frame>, rest: seq<Frame>, answers: Answers)
    requires 480 < v < 0x8000_0000 && NoQueries(queue)
    requires more + rest == queue && |more| == Refill(queue, v, answers, 1).sent
    ensures |Flatten(more)| + 5 <= v && Refill(queue, v, answers, 1).space == v - |Flatten(more)|
    ensures rest != [] ==> |Flatten(more)| + |rest[0]| + 5 > v
  {
    assert v < WORD;
    hide *;
    RefillIsGreedy(queue, v, answers, 1);
    SentPart(queue, more, rest);
  }

  /** The part of a queue that was sent, and its size. */
  lemma SentPart(queue: seq<Frame>, more: seq<Frame>, rest: seq<Frame>)
    ensures more + rest == queue ==>
              && more == queue[..|more|] && TotalSize(queue[..|more|]) == |Flatten(more)|
              && (rest != [] ==> |more| < |queue| && TotalSize(queue[..|more| + 1]) == |Flatten(more)| + |rest[0]|)
  {
    hide TotalSize;
    if more + rest == queue {
      SizeIsLength(more);
      if rest != [] {
        assert queue[..|more| + 1] == more + [rest[0]];
        SizeIsLength(more + [rest[0]]);
        FlattenLast(more, rest[0]);
      }
    }
  }

  lemma MoreReceived(done: seq<string>, queued: seq<string>, more: seq<string>)
    ensures done + (queued + more) == done + queued + more
  {
  }

  lemma HeadMoves(before: seq<Frame>, now: seq<Frame>, queue: seq<Frame>)
    requires queue != []
    ensures now + [queue[0]] + queue[1..] == now + queue
    ensures before + now + [queue[0]] == before + (now + [queue[0]])
  {
  }

  lemma RegroupCommands(a: seq<Frame>, b: seq<Frame>, c: seq<Frame>)
    ensures a + (b + c) == a + b + c
  {
  }

  /** The packets of the commands of a refill, each as often as it has to be sent. */
  function PacketsOf(commands: seq<Frame>, answers: Answers): seq<Frame> {
    if commands == [] then [] else
      var n := |commands| - 1;
      PacketsOf(commands[..n], answers) + Repeated(Packet(commands[n]), Attempts(answers(n + 1), 0))
  }

  lemma NoPackets(answers: Answers)
    ensures forall w: seq<Frame> :: w + PacketsOf([], answers) == w
  {
  }

  lemma OnePacketMore(sent: seq<Frame>, command: Frame, answers: Answers)
    ensures forall w: seq<Frame> :: w + PacketsOf(sent + [command], answers)
                                 == w + PacketsOf(sent, answers) + Repeated(Packet(command), Attempts(answers(|sent| + 1), 0))
  {
    hide Packet;
    assert (sent + [command])[..|sent|] == sent;
  }

  lemma NextAttempt(responses: Responses, n: nat)
    requires n < MAX_TRIES
    ensures Attempts(responses, n) == if n + 1 == MAX_TRIES || responses(n) != Failed then n + 1 else Attempts(responses, n + 1)
  {
  }

  lemma NeverSent(wire: seq<Frame>, payload: Frame)
    ensures wire + Repeated(Packet(payload), 0) == wire
  {
  }

  lemma SentAgain(wire: seq<Frame>, packet: Frame, n: nat)
    ensures wire + Repeated(packet, n) + [packet] == wire + Repeated(packet, n + 1)
  {
  }

  /** In the middle of a refill, what is still to be sent is a refill of the rest. */
  predicate SameRest(queue: seq<Frame>, space: nat, rest: seq<Frame>, space': nat, answers: Answers, k: nat)
    requires space < WORD && space' < WORD
  {
    && Refill(queue, space, answers, 1).sent == k - 1 + Refill(rest, space', answers, k).sent
    && Refill(queue, space, answers, 1).space == Refill(rest, space', answers, k).space
  }

  lemma NothingSent(queue: seq<Frame>, space: nat, answers: Answers)
    requires space < WORD
    ensures SameRest(queue, space, queue, space, answers, 1)
    ensures queue == [] ==> Refill(queue, space, answers, 1).sent == 0 && Refill(queue, space, answers, 1).space == space
  {
  }

  lemma NextSent(queue: seq<Frame>, space: nat, rest: seq<Frame>, space': nat, answers: Answers, k: nat)
    requires space < WORD && space' < WORD && SameRest(queue, space, rest, space', answers, k)
    requires rest != [] && |rest[0]| <= Sub32(space', 5)
    ensures SameRest(queue, space, rest[1..], SpaceAfter(space', rest[0], Value(answers(k))), answers, k + 1)
  {
    hide SpaceAfter, Sub32;
  }

  lemma RefillStops(queue: seq<Frame>, space: nat, rest: seq<Frame>, space': nat, answers: Answers, k: nat)
    requires space < WORD && space' < WORD && SameRest(queue, space, rest, space', answers, k)
    requires k > 0
    ensures rest == [] || |rest[0]| > Sub32(space', 5) ==>
              Refill(queue, space, answers, 1).sent == k - 1 && Refill(queue, space, answers, 1).space == space'
  {
    hide SpaceAfter, Sub32;
  }

  /** A text with lines in it is not empty, and its lines put the queue back together. */
  lemma CountedText(text: string, queue: seq<string>, count: nat)
    requires 0 < count <= |queue| && CleanLines(text, true) == queue[..count]
    ensures text != ""
    ensures forall done: seq<string> :: done + CleanLines(text, true) + queue[count..] == done + queue
  {
    NoText(true);
    assert queue == queue[..count] + queue[count..];
  }
}
