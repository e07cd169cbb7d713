/** The tokenizer of the S3G command stream (src/drivers/S3GParser.h). */
module S3G {
  import opened Common

  const TOOL_ACTION: bv8 := 136
  const DISPLAY_MESSAGE: bv8 := 149
  const BUILD_START: bv8 := 153

  /** The argument format of each opcode; an opcode that is not in the table has none. */
  function Format(op: bv8): string {
    match op
    case 129 => "<iiiI"
    case 130 => "<iii"
    case 131 => "<BIH"
    case 132 => "<BIH"
    case 133 => "<I"
    case 134 => "<B"
    case 135 => "<BHH"
    case 137 => "<B"
    case 138 => "<H"
    case 139 => "<iiiiiI"
    case 140 => "<iiiii"
    case 141 => "<BHH"
    case 142 => "<iiiiiIB"
    case 143 => "<b"
    case 144 => "<b"
    case 145 => "<BB"
    case 146 => "<BBBBB"
    case 147 => "<HHB"
    case 148 => "<BHB"
    case 150 => "<BB"
    case 151 => "<B"
    case 152 => "<B"
    case 154 => "<B"
    case 155 => "<iiiiiIBfh"
    case 156 => "<B"
    case 157 => "<BBBIHHIIB"
    case 158 => "<f"
    case _ => ""
  }

  const CHARS := "@=<>!cbB?hHiIlLqQfdspP"
  const SIZES := "0000011112244448848005"

  /** Size in bytes of one format character. */
  function SizeOf(c: char): nat {
    if c == 'c' || c == 'b' || c == 'B' || c == '?' then 1
    else if c == 'h' || c == 'H' then 2
    else if c == 'i' || c == 'I' || c == 'l' || c == 'L' || c == 'f' then 4
    else if c == 'P' then 5
    else if c == 'q' || c == 'Q' || c == 'd' then 8
    else 0
  }

  function CalcSize(format: string): nat {
    if format == "" then 0 else CalcSize(format[..|format| - 1]) + SizeOf(format[|format| - 1])
  }

  /** The table says what SizeOf says. (No format contains a NUL, for which the program looks past the table.) */
  method CalcSizeOfChar(c: char) returns (size: int)
    ensures size == SizeOf(c)
  {
    var i := 0;
    while i < |CHARS|
      invariant 0 <= i <= |CHARS| && forall j :: 0 <= j < i ==> CHARS[j] != c
    {
      if CHARS[i] == c {
        return SIZES[i] as int - '0' as int;
      }
      i := i + 1;
    }
    NotInTable(c);
    return 0;
  }

  lemma NotInTable(c: char)
    requires forall j :: 0 <= j < |CHARS| ==> CHARS[j] != c
    ensures SizeOf(c) == 0
  {
    assert CHARS[5] != c && CHARS[6] != c && CHARS[7] != c && CHARS[8] != c && CHARS[9] != c && CHARS[10] != c;
    assert CHARS[11] != c && CHARS[12] != c && CHARS[13] != c && CHARS[14] != c && CHARS[15] != c && CHARS[16] != c;
    assert CHARS[17] != c && CHARS[18] != c && CHARS[21] != c;
  }

  method CalcSizeOfFormat(format: string) returns (size: int)
    ensures size == CalcSize(format)
  {
    size := 0;
    var i := 0;
    while i < |format|
      invariant 0 <= i <= |format| && size == CalcSize(format[..i])
    {
      var n := CalcSizeOfChar(format[i]);
      assert format[..i + 1][..i] == format[..i];
      size := size + n;
      i := i + 1;
    }
    assert format[..i] == format;
  }

  /** Bytes of arguments that follow an opcode. */
  function ArgSize(op: bv8): nat {
    CalcSize(Format(op))
  }

  // --------------------------------------------------------------- the reference

  function FirstZero(buf: Frame, i: nat): (z: nat)
    requires i <= |buf|
    ensures i <= z <= |buf|
    ensures forall j :: i <= j < z ==> buf[j] != 0
    ensures z < |buf| ==> buf[z] == 0
    decreases |buf| - i
  {
    if i == |buf| || buf[i] == 0 then i else FirstZero(buf, i + 1)
  }

  predicate IsText(op: bv8) {
    op == DISPLAY_MESSAGE || op == BUILD_START
  }

  /** How many bytes one parse step consumes, if the buffer holds all it reads: opcode and arguments,
      or, for the two text commands, everything up to the terminator but not the terminator itself. */
  function Consumed(buf: Frame): (n: Option<nat>)
    ensures n.Some? ==> 0 < n.value <= |buf|
  {
    if buf == [] then None
    else if buf[0] == TOOL_ACTION then
      if |buf| < 4 || |buf| < 4 + buf[3] as nat then None else Some(4 + buf[3] as nat)
    else if IsText(buf[0]) then
      if |buf| < 5 || FirstZero(buf, 5) == |buf| then None else Some(FirstZero(buf, 5))
    else if |buf| < 1 + ArgSize(buf[0]) then None
    else Some(1 + ArgSize(buf[0]))
  }

  /** The command a parse step pushes; of a text command its four option bytes are dropped. */
  function Pushed(buf: Frame, n: nat): Frame
    requires 0 < n <= |buf|
  {
    if IsText(buf[0]) && n >= 5 then [buf[0]] + buf[5..n] else buf[..n]
  }

  /** No parse step reads beyond the buffer. */
  predicate Parsable(buf: Frame)
    decreases |buf|
  {
    buf == [] || (Consumed(buf).Some? && Parsable(buf[Consumed(buf).value..]))
  }

  function Parsed(buf: Frame): seq<Frame>
    requires Parsable(buf)
    decreases |buf|
  {
    if buf == [] then [] else
      var n := Consumed(buf).value;
      [Pushed(buf, n)] + Parsed(buf[n..])
  }

  // ------------------------------------------------------------------- the parser

  class S3GParser {
    var buffer: Frame
    var bufferPos: nat
    var lineNumber: nat
    var commands: seq<Frame>

    constructor ()
      ensures buffer == [] && bufferPos == 0 && commands == []
    {
      buffer, bufferPos, lineNumber, commands := [], 0, 0, [];
    }

    ghost predicate Valid()
      reads this
    {
      bufferPos <= |buffer| && Parsable(buffer[bufferPos..])
    }

    method SetBuffer(buf: Frame)
      modifies this
      ensures buffer == buf && bufferPos == 0 && commands == old(commands)
      ensures Parsable(buf) ==> Valid() && buffer[bufferPos..] == buf
    {
      buffer, bufferPos, lineNumber := buf, 0, 0;
      assert buf[0..] == buf;
    }

    /** What is left of the buffer from the opcode just read on. */
    ghost function FromOpcode(): Frame
      requires 0 < bufferPos <= |buffer|
      reads this
    {
      buffer[bufferPos - 1..]
    }

    method ParseToolAction()
      requires 0 < bufferPos <= |buffer|
      requires FromOpcode()[0] == TOOL_ACTION && Consumed(FromOpcode()).Some?
      modifies this`bufferPos, this`commands
      ensures bufferPos == old(bufferPos) - 1 + Consumed(old(FromOpcode())).value <= |buffer|
      ensures commands == old(commands) + [Pushed(old(FromOpcode()), Consumed(old(FromOpcode())).value)]
    {
      hide ArgSize;
      ghost var rest := FromOpcode();
      ToolBytes(buffer, bufferPos - 1);
      var packetData := buffer[bufferPos..bufferPos + 3];
      var payloadLen := buffer[bufferPos + 2] as nat;
      bufferPos := bufferPos + 3;
      packetData := packetData + buffer[bufferPos..bufferPos + payloadLen];
      bufferPos := bufferPos + payloadLen;
      commands := commands + [[TOOL_ACTION] + packetData];
    }

    /** The two text commands: four option bytes are skipped, the text is taken up to its terminator, which stays. */
    method ParseText(command: bv8)
      requires 0 < bufferPos <= |buffer| && IsText(command)
      requires FromOpcode()[0] == command && Consumed(FromOpcode()).Some?
      modifies this`bufferPos, this`commands
      ensures bufferPos == old(bufferPos) - 1 + Consumed(old(FromOpcode())).value <= |buffer|
      ensures commands == old(commands) + [Pushed(old(FromOpcode()), Consumed(old(FromOpcode())).value)]
    {
      hide ArgSize;
      ghost var rest, start := FromOpcode(), bufferPos - 1;
      var text := [];
      bufferPos := bufferPos + 4;
      while buffer[bufferPos] != 0
        invariant start + 5 <= bufferPos <= start + FirstZero(rest, 5) < |buffer|
        invariant text == rest[5..bufferPos - start]
        invariant commands == old(commands)
        decreases |buffer| - bufferPos
      {
        assert buffer[bufferPos] == rest[bufferPos - start];
        text := text + [buffer[bufferPos]];
        bufferPos := bufferPos + 1;
      }
      assert rest[bufferPos - start] == 0;
      assert bufferPos - start == FirstZero(rest, 5);
      commands := commands + [[command] + text];
    }

    method ParseArguments(command: bv8)
      requires 0 < bufferPos <= |buffer| && command != TOOL_ACTION && !IsText(command)
      requires FromOpcode()[0] == command && Consumed(FromOpcode()).Some?
      modifies this`bufferPos, this`commands
      ensures bufferPos == old(bufferPos) - 1 + Consumed(old(FromOpcode())).value <= |buffer|
      ensures commands == old(commands) + [Pushed(old(FromOpcode()), Consumed(old(FromOpcode())).value)]
    {
      hide ArgSize;
      ghost var rest := FromOpcode();
      var packetLen := ArgumentLength(command);
      var packetData := buffer[bufferPos..bufferPos + packetLen];
      bufferPos := bufferPos + packetLen;
      commands := commands + [[command] + packetData];
      assert [command] + packetData == rest[..1 + packetLen];
    }

    /** Parses one command; false at the end of the buffer. */
    method ParseNextCommand() returns (more: bool)
      requires Valid()
      modifies this`bufferPos, this`lineNumber, this`commands
      ensures Valid()
      ensures more <==> old(buffer[bufferPos..]) != []
      ensures !more ==> commands == old(commands) && bufferPos == old(bufferPos)
      ensures more ==>
                && bufferPos > old(bufferPos)
                && commands + Parsed(buffer[bufferPos..]) == old(commands) + Parsed(old(buffer[bufferPos..]))
    {
      hide Consumed, Pushed, Parsable, Parsed;
      if bufferPos >= |buffer| {
        return false;
      }
      ghost var rest := buffer[bufferPos..];
      ghost var start := bufferPos;
      FirstParsed(rest);
      var command := buffer[bufferPos];
      bufferPos := bufferPos + 1;
      if command == TOOL_ACTION {
        ParseToolAction();
      } else if command == DISPLAY_MESSAGE || command == BUILD_START {
        ParseText(command);
      } else {
        ParseArguments(command);
      }
      lineNumber := lineNumber + 1;
      more := true;
      Suffix(buffer, start, bufferPos - start);
      Regrouped(old(commands), Pushed(rest, Consumed(rest).value), Parsed(buffer[bufferPos..]));
    }

    /** The loop that parses a whole buffer. */
    method ParseAll()
      requires Valid()
      modifies this`bufferPos, this`lineNumber, this`commands
      ensures Valid() && bufferPos == |buffer|
      ensures commands == old(commands) + Parsed(old(buffer[bufferPos..]))
    {
      hide Parsable, Parsed;
      var more := ParseNextCommand();
      while more
        invariant Valid()
        invariant commands + Parsed(buffer[bufferPos..]) == old(commands) + Parsed(old(buffer[bufferPos..]))
        invariant !more ==> buffer[bufferPos..] == []
        decreases |buffer| - bufferPos, more
      {
        more := ParseNextCommand();
      }
      NothingParsed();
    }
  }

  lemma NothingParsed()
    ensures Parsable([]) && Parsed([]) == []
  {
  }

  lemma Suffix(buf: Frame, start: nat, n: nat)
    requires start + n <= |buf|
    ensures buf[start..][n..] == buf[start + n..]
  {
  }

  lemma Regrouped(a: seq<Frame>, c: Frame, rest: seq<Frame>)
    ensures a + [c] + rest == a + ([c] + rest)
  {
  }

  lemma ToolBytes(buffer: Frame, start: nat)
    requires start < |buffer| && buffer[start] == TOOL_ACTION && Consumed(buffer[start..]).Some?
    ensures start + 4 <= |buffer|
    ensures var len := buffer[start + 3] as nat;
            && Consumed(buffer[start..]) == Some(4 + len) && start + 4 + len <= |buffer|
            && [TOOL_ACTION] + (buffer[start + 1..start + 4] + buffer[start + 4..start + 4 + len]) == Pushed(buffer[start..], 4 + len)
  {
    hide ArgSize;
    var len := buffer[start + 3] as nat;
    assert buffer[start..][3] == buffer[start + 3];
    assert Consumed(buffer[start..]) == Some(4 + len);
    OpcodeAndRest(buffer, start, len);
  }

  lemma OpcodeAndRest(buffer: Frame, start: nat, len: nat)
    requires start + 4 + len <= |buffer|
    ensures [buffer[start]] + (buffer[start + 1..start + 4] + buffer[start + 4..start + 4 + len]) == buffer[start..][..4 + len]
  {
  }

  method ArgumentLength(command: bv8) returns (n: int)
    ensures n == ArgSize(command)
  {
    n := CalcSizeOfFormat(Format(command));
  }

  lemma FirstParsed(buf: Frame)
    requires Parsable(buf) && buf != []
    ensures Consumed(buf).Some? && Parsable(buf[Consumed(buf).value..])
    ensures Parsed(buf) == [Pushed(buf, Consumed(buf).value)] + Parsed(buf[Consumed(buf).value..])
  {
  }

  // ------------------------------------------------------------ what it tokenizes

  /** A command as it is on the wire: a tool action with its length-prefixed payload, a text command with four
      option bytes and a terminated text, or an opcode with its arguments. */
  predicate WellFormed(c: Frame) {
    c != [] &&
    if c[0] == TOOL_ACTION then |c| >= 4 && |c| == 4 + c[3] as nat
    else if IsText(c[0]) then |c| >= 6 && FirstZero(c, 5) == |c| - 1
    else |c| == 1 + ArgSize(c[0])
  }

  predicate AllWellFormed(cs: seq<Frame>) {
    forall i :: 0 <= i < |cs| ==> WellFormed(cs[i])
  }

  /** What the parser makes of one command: a text command loses its options, and its terminator
      is taken for a command of its own, with opcode 0. */
  function Tokens(c: Frame): seq<Frame>
    requires WellFormed(c)
  {
    if IsText(c[0]) then [[c[0]] + c[5..|c| - 1], [0]] else [c]
  }

  function AllTokens(cs: seq<Frame>): seq<Frame>
    requires AllWellFormed(cs)
  {
    if cs == [] then [] else Tokens(cs[0]) + AllTokens(cs[1..])
  }

  lemma ZeroInPrefix(c: Frame, rest: Frame, i: nat)
    requires i <= |c| && FirstZero(c, i) < |c|
    ensures FirstZero(c + rest, i) == FirstZero(c, i)
  {
    var z := FirstZero(c, i);
    assert (c + rest)[z] == 0;
    assert forall j :: i <= j < z ==> (c + rest)[j] == c[j];
  }

  lemma ParsedOne(c: Frame, rest: Frame)
    requires WellFormed(c) && !IsText(c[0])
    ensures Consumed(c + rest) == Some(|c|) && Pushed(c + rest, |c|) == c && (c + rest)[|c|..] == rest
  {
  }

  lemma ParsedText(c: Frame, rest: Frame)
    requires WellFormed(c) && IsText(c[0])
    ensures Consumed(c + rest) == Some(|c| - 1)
    ensures Pushed(c + rest, |c| - 1) == [c[0]] + c[5..|c| - 1]
    ensures (c + rest)[|c| - 1..] == [0] + rest
  {
    hide ArgSize, FirstZero;
    ZeroInPrefix(c, rest, 5);
  }

  lemma ParsedZero(rest: Frame)
    ensures WellFormed([0]) && !IsText(0)
  {
    assert Format(0) == "";
  }

  lemma ParseStep(buf: Frame, n: nat)
    requires Consumed(buf) == Some(n) && Parsable(buf[n..])
    ensures Parsable(buf) && Parsed(buf) == [Pushed(buf, n)] + Parsed(buf[n..])
  {
  }

  lemma FirstTokens(cs: seq<Frame>)
    requires AllWellFormed(cs) && cs != []
    ensures WellFormed(cs[0]) && AllWellFormed(cs[1..])
    ensures AllTokens(cs) == Tokens(cs[0]) + AllTokens(cs[1..])
    ensures Flatten(cs) == cs[0] + Flatten(cs[1..])
  {
  }

  /** The tokens of any concatenation of well-formed commands. */
  lemma {:induction false} StreamTokens(cs: seq<Frame>)
    requires AllWellFormed(cs)
    ensures Parsable(Flatten(cs)) && Parsed(Flatten(cs)) == AllTokens(cs)
  {
    hide Consumed, Pushed, Parsable, Parsed, WellFormed, AllWellFormed, Flatten, ArgSize;
    if cs == [] {
      NothingParsed();
      FlattenNone<bv8>();
    } else {
      FirstTokens(cs);
      var c, rest := cs[0], Flatten(cs[1..]);
      StreamTokens(cs[1..]);
      if IsText(c[0]) {
        ParsedZero(rest);
        ParsedOne([0], rest);
        ParseStep([0] + rest, 1);
        ParsedText(c, rest);
        ParseStep(c + rest, |c| - 1);
      } else {
        ParsedOne(c, rest);
        ParseStep(c + rest, |c|);
      }
    }
  }

  function Texts(cs: seq<Frame>): nat
    requires AllWellFormed(cs)
  {
    if cs == [] then 0 else (if IsText(cs[0][0]) then 1 else 0) + Texts(cs[1..])
  }

  lemma {:induction false} TokenCount(cs: seq<Frame>)
    requires AllWellFormed(cs)
    ensures |AllTokens(cs)| == |cs| + Texts(cs)
    ensures Texts(cs) == 0 ==> AllTokens(cs) == cs
    ensures Texts(cs) == 0 <==> forall i :: 0 <= i < |cs| ==> !IsText(cs[i][0])
  {
    if cs != [] {
      TokenCount(cs[1..]);
      assert cs == [cs[0]] + cs[1..];
    }
  }

  /** Parsing a concatenation of well-formed commands returns exactly those commands if and only if
      none of them is a display message (149) or a build start notification (153). */
  lemma TokenizerIsExact(cs: seq<Frame>)
    requires AllWellFormed(cs)
    ensures Parsable(Flatten(cs))
    ensures Parsed(Flatten(cs)) == cs <==> forall i :: 0 <= i < |cs| ==> !IsText(cs[i][0])
  {
    StreamTokens(cs);
    TokenCount(cs);
  }

  /** A display message with an empty text is well-formed, and is taken for two commands. */
  lemma MessageIsTwoCommands()
    ensures AllWellFormed([[DISPLAY_MESSAGE, 0, 0, 0, 0, 0]])
    ensures Parsable([DISPLAY_MESSAGE, 0, 0, 0, 0, 0]) && Parsed([DISPLAY_MESSAGE, 0, 0, 0, 0, 0]) == [[DISPLAY_MESSAGE], [0]]
  {
    var c: Frame := [DISPLAY_MESSAGE, 0, 0, 0, 0, 0];
    assert FirstZero(c, 5) == 5;
    assert WellFormed(c);
    hide FirstZero, WellFormed, Parsed, Parsable;
    StreamTokens([c]);
    FlattenOne(c);
    assert [c][1..] == [] && [c[0]] + c[5..5] == [DISPLAY_MESSAGE];
  }

  // ------------------------------------------------------ in terms of bytes

  /** The size of the first n characters of a format. */
  function SizeUpTo(f: string, n: nat): nat
    requires n <= |f|
  {
    if n == 0 then 0 else SizeUpTo(f, n - 1) + SizeOf(f[n - 1])
  }

  lemma {:induction false} SameSizeUpTo(f: string, g: string, n: nat)
    requires n <= |f| && n <= |g| && forall i :: 0 <= i < n ==> f[i] == g[i]
    ensures SizeUpTo(f, n) == SizeUpTo(g, n)
  {
    hide SizeOf;
    if n > 0 {
      SameSizeUpTo(f, g, n - 1);
    }
  }

  lemma {:induction false} SizeIsSum(f: string)
    ensures CalcSize(f) == SizeUpTo(f, |f|)
    decreases |f|
  {
    hide SizeOf;
    if f != "" {
      var n := |f| - 1;
      SizeIsSum(f[..n]);
      SameSizeUpTo(f[..n], f, n);
    }
  }

  lemma FirstSizes(f: string)
    ensures |f| >= 1 ==> SizeUpTo(f, 1) == SizeOf(f[0])
    ensures |f| >= 2 ==> SizeUpTo(f, 2) == SizeOf(f[0]) + SizeOf(f[1])
    ensures |f| >= 3 ==> SizeUpTo(f, 3) == SizeOf(f[0]) + SizeOf(f[1]) + SizeOf(f[2])
    ensures |f| >= 4 ==> SizeUpTo(f, 4) == SizeOf(f[0]) + SizeOf(f[1]) + SizeOf(f[2]) + SizeOf(f[3])
    ensures |f| >= 5 ==> SizeUpTo(f, 5) == SizeOf(f[0]) + SizeOf(f[1]) + SizeOf(f[2]) + SizeOf(f[3]) + SizeOf(f[4])
    ensures |f| >= 6 ==> SizeUpTo(f, 6) == SizeOf(f[0]) + SizeOf(f[1]) + SizeOf(f[2]) + SizeOf(f[3]) + SizeOf(f[4]) + SizeOf(f[5])
    ensures |f| >= 7 ==> SizeUpTo(f, 7) == SizeOf(f[0]) + SizeOf(f[1]) + SizeOf(f[2]) + SizeOf(f[3]) + SizeOf(f[4]) + SizeOf(f[5]) + SizeOf(f[6])
    ensures |f| >= 8 ==> SizeUpTo(f, 8) == SizeOf(f[0]) + SizeOf(f[1]) + SizeOf(f[2]) + SizeOf(f[3]) + SizeOf(f[4]) + SizeOf(f[5]) + SizeOf(f[6]) + SizeOf(f[7])
    ensures |f| >= 9 ==> SizeUpTo(f, 9) == SizeOf(f[0]) + SizeOf(f[1]) + SizeOf(f[2]) + SizeOf(f[3]) + SizeOf(f[4]) + SizeOf(f[5]) + SizeOf(f[6]) + SizeOf(f[7]) + SizeOf(f[8])
    ensures |f| >= 10 ==> SizeUpTo(f, 10) == SizeOf(f[0]) + SizeOf(f[1]) + SizeOf(f[2]) + SizeOf(f[3]) + SizeOf(f[4]) + SizeOf(f[5]) + SizeOf(f[6]) + SizeOf(f[7]) + SizeOf(f[8]) + SizeOf(f[9])
  {
    hide SizeOf;
  }

  lemma SizeOfFormat(f: string)
    requires |f| <= 10
    ensures |f| == 1 ==> CalcSize(f) == SizeOf(f[0])
    ensures |f| == 2 ==> CalcSize(f) == SizeOf(f[0]) + SizeOf(f[1])
    ensures |f| == 3 ==> CalcSize(f) == SizeOf(f[0]) + SizeOf(f[1]) + SizeOf(f[2])
    ensures |f| == 4 ==> CalcSize(f) == SizeOf(f[0]) + SizeOf(f[1]) + SizeOf(f[2]) + SizeOf(f[3])
    ensures |f| == 5 ==> CalcSize(f) == SizeOf(f[0]) + SizeOf(f[1]) + SizeOf(f[2]) + SizeOf(f[3]) + SizeOf(f[4])
    ensures |f| == 6 ==> CalcSize(f) == SizeOf(f[0]) + SizeOf(f[1]) + SizeOf(f[2]) + SizeOf(f[3]) + SizeOf(f[4]) + SizeOf(f[5])
    ensures |f| == 7 ==> CalcSize(f) == SizeOf(f[0]) + SizeOf(f[1]) + SizeOf(f[2]) + SizeOf(f[3]) + SizeOf(f[4]) + SizeOf(f[5]) + SizeOf(f[6])
    ensures |f| == 8 ==> CalcSize(f) == SizeOf(f[0]) + SizeOf(f[1]) + SizeOf(f[2]) + SizeOf(f[3]) + SizeOf(f[4]) + SizeOf(f[5]) + SizeOf(f[6]) + SizeOf(f[7])
    ensures |f| == 9 ==> CalcSize(f) == SizeOf(f[0]) + SizeOf(f[1]) + SizeOf(f[2]) + SizeOf(f[3]) + SizeOf(f[4]) + SizeOf(f[5]) + SizeOf(f[6]) + SizeOf(f[7]) + SizeOf(f[8])
    ensures |f| == 10 ==> CalcSize(f) == SizeOf(f[0]) + SizeOf(f[1]) + SizeOf(f[2]) + SizeOf(f[3]) + SizeOf(f[4]) + SizeOf(f[5]) + SizeOf(f[6]) + SizeOf(f[7]) + SizeOf(f[8]) + SizeOf(f[9])
  {
    hide SizeOf, CalcSize, SizeUpTo;
    SizeIsSum(f);
    FirstSizes(f);
  }

  lemma ShortFormats()
    ensures CalcSize("<B") == 1
    ensures CalcSize("<b") == 1
    ensures CalcSize("<H") == 2
    ensures CalcSize("<I") == 4
    ensures CalcSize("<f") == 4
    ensures CalcSize("<BB") == 2
    ensures CalcSize("<BHH") == 5
    ensures CalcSize("<HHB") == 5
    ensures CalcSize("<BHB") == 4
    ensures CalcSize("<BIH") == 7
    ensures CalcSize("<iii") == 12
  {
    hide CalcSize, SizeUpTo;
    SizeOfFormat("<B");
    SizeOfFormat("<b");
    SizeOfFormat("<H");
    SizeOfFormat("<I");
    SizeOfFormat("<f");
    SizeOfFormat("<BB");
    SizeOfFormat("<BHH");
    SizeOfFormat("<HHB");
    SizeOfFormat("<BHB");
    SizeOfFormat("<BIH");
    SizeOfFormat("<iii");
  }

  lemma LongFormats()
    ensures CalcSize("<BBBBB") == 5
    ensures CalcSize("<iiiI") == 16
    ensures CalcSize("<iiiii") == 20
    ensures CalcSize("<iiiiiI") == 24
    ensures CalcSize("<iiiiiIB") == 25
    ensures CalcSize("<iiiiiIBfh") == 31
    ensures CalcSize("<BBBIHHIIB") == 20
  {
    hide CalcSize, SizeUpTo;
    SizeOfFormat("<BBBBB");
    SizeOfFormat("<iiiI");
    SizeOfFormat("<iiiii");
    SizeOfFormat("<iiiiiI");
    SizeOfFormat("<iiiiiIB");
    SizeOfFormat("<iiiiiIBfh");
    SizeOfFormat("<BBBIHHIIB");
  }

  /** How many bytes of arguments follow each opcode. */
  lemma ArgumentSizes(op: bv8)
    ensures ArgSize(op) ==
            if op in {134, 137, 143, 144, 151, 152, 154, 156} then 1
            else if op in {138, 145, 150} then 2
            else if op in {133, 148, 158} then 4
            else if op in {135, 141, 146, 147} then 5
            else if op in {131, 132} then 7
            else if op == 130 then 12
            else if op == 129 then 16
            else if op in {140, 157} then 20
            else if op == 139 then 24
            else if op == 142 then 25
            else if op == 155 then 31
            else 0
  {
    ShortFormats();
    LongFormats();
    assert CalcSize("") == 0;
    hide CalcSize, SizeOf;
  }

  /** A tool action: opcode 136, tool, tool command, payload length, payload. */
  lemma ToolActionForm(tool: bv8, command: bv8, payload: Frame)
    requires |payload| < 256
    ensures WellFormed([136, tool, command, |payload| as bv8] + payload)
    ensures Tokens([136, tool, command, |payload| as bv8] + payload) == [[136, tool, command, |payload| as bv8] + payload]
  {
    hide ArgSize;
    var c: Frame := [136, tool, command, |payload| as bv8] + payload;
    assert |c| == 4 + |payload| && c[0] == 136 && c[3] == |payload| as bv8;
    assert (|payload| as bv8) as nat == |payload|;
  }

  /** The two text commands: opcode, four option bytes, a text without zeros, a zero. What is left of them is the
      opcode with the text, and a command of a single zero. */
  lemma TextForm(op: bv8, options: Frame, text: Frame)
    requires (op == 149 || op == 153) && |options| == 4 && 0 !in text
    ensures WellFormed([op] + options + text + [0])
    ensures Tokens([op] + options + text + [0]) == [[op] + text, [0]]
  {
    hide ArgSize;
    var c := [op] + options + text + [0];
    var n := 5 + |text|;
    assert c[n] == 0 && c[5..n] == text;
    forall j | 5 <= j < n
      ensures c[j] != 0
    {
      assert c[j] == text[j - 5] && text[j - 5] in text;
    }
    assert FirstZero(c, 5) == n;
  }

  /** Every other command: opcode and arguments. */
  lemma ArgumentForm(op: bv8, args: Frame)
    requires op != 136 && op != 149 && op != 153
    ensures WellFormed([op] + args) <==> |args| == ArgSize(op)
    ensures WellFormed([op] + args) ==> Tokens([op] + args) == [[op] + args]
  {
    hide ArgSize;
  }
}
