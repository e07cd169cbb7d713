/** What each command of a client does to the driver and what the client is told, by the code and the bytes of the
    command (src/server/CommandHandler.cpp). */
module CommandFacts {
  import opened CallEvents
  import opened Calls
  import opened Common
  import opened GCodeBuffers
  import opened GCodeText
  import opened Ipc
  import opened MarlinFacts
  import opened MarlinSpec
  import opened Metadata
  import opened Strings
  import S = Server
  import T = Transactions

  /** The driver before a command, with what its buffer goes by when it is given a text. */
  datatype Situation = Situation(d: Driver, t: T.Transaction, files: T.Files, md: MetaData, bufferSize: int, maxBufferSize: nat)

  /** The driver after a command, as RunCommand leaves it. */
  function Outcome(s: Situation, c: Command): Driver {
    Obeyed(s.d, T.Effects(s.t, c, s.files), s.md, s.bufferSize, s.maxBufferSize)
  }

  /** What the client is told. */
  function Told(s: Situation, c: Command, cancelled: bool): seq<S.Answer> {
    S.AnswersTo(s.t, c, cancelled, s.files, s.md, s.bufferSize, s.maxBufferSize)
  }

  /** A text is accepted by the driver's buffer. */
  predicate Room(s: Situation, text: string, meta: Option<MetaData>) {
    && Sanity(s.md, s.bufferSize, meta) == Ok
    && (s.maxBufferSize == 0 || s.bufferSize + |text| <= s.maxBufferSize)
  }

  lemma RoomMeans(s: Situation, text: string, meta: Option<MetaData>)
    ensures Room(s, text, meta) <==> Admission(s.md, s.bufferSize, s.maxBufferSize, |text|, meta) == Ok
  {
  }

  /** Code 0x12: the queue is empty, no print goes on, and nothing was sent. */
  lemma ClearCommand(s: Situation, args: seq<Bytes>, cancelled: bool)
    ensures var e := Outcome(s, Command(0x12, args));
            && e.queue == [] && e.total == 0 && e.currentLine == 0 && e.wire == s.d.wire
            && e.state == if s.d.state in {Buffering, Printing, Stopping} then Idle else s.d.state
    ensures Told(s, Command(0x12, args), cancelled) == [S.Done]
  {
    hide Step;
    ObeyedOne(s.d, ClearGCode, s.md, s.bufferSize, s.maxBufferSize);
    ClearMeans(s.d);
  }

  /** Code 0x15: an online driver with lines that is not printing sends the first one, and keeps it queued. */
  lemma StartCommand(s: Situation, args: seq<Bytes>, cancelled: bool)
    requires Safe(s.d)
    ensures var e := Outcome(s, Command(0x15, args));
            && e.queue == s.d.queue
            && (s.d.state in {Idle, Buffering} && s.d.queue != [] ==> e.state == Printing && e.wire == s.d.wire + [s.d.queue[0]] && e.currentLine == 1)
            && (s.d.state in {Idle, Buffering} && s.d.queue == [] ==> e.state == Idle && e.wire == s.d.wire)
            && (s.d.state in {Unknown, Disconnected, Connecting} ==> e == s.d)
    ensures Told(s, Command(0x15, args), cancelled) == [S.Done]
  {
    ObeyedOne(s.d, Call.StartPrint, s.md, s.bufferSize, s.maxBufferSize);
    if s.d.state != Printing && s.d.state != Stopping {
      hide Step;
      StartMeans(s.d);
    }
  }

  /** Code 0x16: the queue is the printable lines of the argument up to its first NUL, or none if there is no
      argument or no room, and an online driver starts to print them. */
  lemma StopCommand(s: Situation, args: seq<Bytes>, cancelled: bool)
    requires Safe(s.d)
    ensures var e, text := Outcome(s, Command(0x16, args)), if args == [] then "" else UpToNul(args[0]);
            var lines := if s.maxBufferSize == 0 || |text| <= s.maxBufferSize then CleanLines(text, false) else [];
            && e.queue == lines
            && (s.d.state in {Idle, Buffering, Printing, Stopping} && lines != [] ==>
                  e.state == Stopping && e.wire == s.d.wire + [lines[0]] && e.currentLine == 1)
            && (s.d.state in {Idle, Buffering, Printing, Stopping} && lines == [] ==> e.state == Idle && e.wire == s.d.wire)
            && (s.d.state in {Unknown, Disconnected, Connecting} ==> e.state == s.d.state && e.wire == s.d.wire)
    ensures Told(s, Command(0x16, args), cancelled) == [S.Done]
  {
    hide Step, CleanLines, UpToNul;
    var text := if args == [] then "" else UpToNul(args[0]);
    ObeyedOne(s.d, Call.StopPrint(text), s.md, s.bufferSize, s.maxBufferSize);
    var ok := Welcomes(Call.StopPrint(text), s.md, s.bufferSize, s.maxBufferSize);
    StopMeans(s.d, CleanLines(text, false), ok);
  }

  /** Code 0x14: the printable lines of a readable file, up to its first NUL, go to the end of the queue if there
      is room, unless the client has a transaction in progress; nothing is sent. */
  lemma FileCommand(s: Situation, args: seq<Bytes>, cancelled: bool)
    requires args != []
    ensures var e, contents := Outcome(s, Command(0x14, args)), s.files(UpToNul(args[0]));
            && (s.t.active || contents.None? ==> e == s.d)
            && (!s.t.active && contents.Some? ==>
                  var text := UpToNul(contents.value);
                  && e.wire == s.d.wire
                  && e.queue == s.d.queue + if Room(s, text, None) then CleanLines(text, false) else [])
            && Told(s, Command(0x14, args), cancelled) ==
               [if s.t.active then S.RetryLater else if contents.Some? then S.Done else S.Error("error reading file")]
  {
    hide Step, CleanLines, UpToNul, Sanity;
    ObeyedNone(s.d, s.md, s.bufferSize, s.maxBufferSize);
    var contents := s.files(UpToNul(args[0]));
    if !s.t.active && contents.Some? {
      var text := UpToNul(contents.value);
      ObeyedOne(s.d, Call.AppendGCode(text, -1, None), s.md, s.bufferSize, s.maxBufferSize);
      RoomMeans(s, text, None);
      AppendMeans(s.d, CleanLines(text, false));
      assert s.d.queue + [] == s.d.queue;
    }
  }

  /** Code 0x13: a chunk that is not the last one leaves the driver alone. The last one adds the printable lines
      of the collected text to the end of the queue if there is room, and the client is told if there is not. */
  lemma AppendCommand(s: Situation, args: seq<Bytes>, cancelled: bool)
    requires args != [] && T.WellTyped(args)
    ensures var e, r := Outcome(s, Command(0x13, args)), T.ReadRequest(args);
            var text := (if r.first then "" else s.t.buffer) + r.data;
            var accepted := Room(s, text, Some(r.meta));
            && e.wire == s.d.wire
            && e.queue == s.d.queue + (if r.last && accepted then CleanLines(text, false) else [])
            && Told(s, Command(0x13, args), cancelled) ==
               (if cancelled then [S.TransactionCancelled] else [])
               + [if !r.last || accepted then S.Done
                  else S.AddFailed(if Sanity(s.md, s.bufferSize, Some(r.meta)) != Ok then Sanity(s.md, s.bufferSize, Some(r.meta)) else BufferFull)]
  {
    hide Step, CleanLines, Sanity, T.ReadRequest;
    ObeyedNone(s.d, s.md, s.bufferSize, s.maxBufferSize);
    var r := T.ReadRequest(args);
    var text := (if r.first then "" else s.t.buffer) + r.data;
    assert s.d.queue + [] == s.d.queue;
    if r.last {
      ObeyedOne(s.d, Call.AppendGCode(text, r.totalLines, Some(r.meta)), s.md, s.bufferSize, s.maxBufferSize);
      RoomMeans(s, text, Some(r.meta));
      AppendMeans(s.d, CleanLines(text, false));
    }
  }

  /** An append without arguments is an error, and any other code has no handler here. */
  lemma OtherCommands(s: Situation, code: int, args: seq<Bytes>, cancelled: bool)
    requires code !in {0x12, 0x13, 0x14, 0x15, 0x16} || (code == 0x13 && args == [])
    ensures Outcome(s, Command(code, args)) == s.d
    ensures Told(s, Command(code, args), cancelled) == if code == 0x13 then [S.Error("missing argument")] else []
  {
    ObeyedNone(s.d, s.md, s.bufferSize, s.maxBufferSize);
  }
}
