/** Clients, their transactions and the command handlers as objects (src/server/Client.cpp,
    src/server/CommandHandler.cpp), proved to do what Transactions says. */
module Server {
  import opened CallEvents
  import opened Calls
  import opened CommandStream
  import opened Common
  import opened GCodeBuffers
  import opened GCodeText
  import opened Ipc
  import opened Marlin
  import M = MarlinSpec
  import opened Metadata
  import opened Strings
  import opened Transactions

  datatype Answer =
    | Done
    | Error(message: string)
    | AddFailed(reason: SetResult)
    | RetryLater
    | TransactionCancelled

  class Client {
    var buffer: Bytes
    var transactionBuffer: string
    var active: bool
    var cancelled: bool
    var answers: seq<Answer>

    constructor ()
      ensures buffer == [] && Trx() == NO_TRANSACTION && !cancelled && answers == []
    {
      buffer, transactionBuffer, active, cancelled, answers := [], "", false, false, [];
    }

    ghost function Trx(): Transaction
      reads this
    {
      Transaction(transactionBuffer, active)
    }

    method ReadData(data: Bytes)
      modifies this`buffer
      ensures buffer == old(buffer) + data
    {
      buffer := buffer + data;
    }

    method Send(answer: Answer)
      modifies this`answers
      ensures answers == old(answers) + [answer]
    {
      answers := answers + [answer];
    }

    /** Removes the command at the start of the buffer. */
    method RemoveCommand()
      requires Complete(buffer) > 0
      modifies this`buffer
      ensures buffer == old(buffer[Complete(buffer)..])
    {
      var l := CmdIsComplete(buffer);
      buffer := buffer[l..];
    }

    /** Hands the collected text to the driver and ends the transaction. */
    method FinishTransaction(driver: MarlinDriver, totalLines: int, meta: MetaData)
      requires driver.Valid()
      modifies this`transactionBuffer, this`active, this`answers, driver`state, driver`calls, driver.gcodeBuffer
      ensures driver.Valid()
      ensures Trx() == NO_TRANSACTION
      ensures driver.calls == old(driver.calls) + [Call.AppendGCode(old(transactionBuffer), totalLines, Some(meta))]
      ensures driver.View() == Obeyed(old(driver.View()), [Call.AppendGCode(old(transactionBuffer), totalLines, Some(meta))],
                                      old(driver.gcodeBuffer.md), old(driver.gcodeBuffer.bufferSize), driver.gcodeBuffer.maxBufferSize)
      ensures answers == old(answers) + [Outcome(old(driver.gcodeBuffer.md), old(driver.gcodeBuffer.bufferSize), driver.gcodeBuffer.maxBufferSize, |old(transactionBuffer)|, meta)]
    {
      hide CleanLines, M.Step, M.Run, Admission, MarlinDriver.View, MarlinDriver.Valid;
      ObeyedOne(driver.View(), Call.AppendGCode(transactionBuffer, totalLines, Some(meta)), driver.gcodeBuffer.md,
                driver.gcodeBuffer.bufferSize, driver.gcodeBuffer.maxBufferSize);
      var result := driver.AppendGCode(transactionBuffer, totalLines, Some(meta));
      transactionBuffer := "";
      active := false;
      if result != Ok {
        Send(AddFailed(result));
      } else {
        Send(Done);
      }
    }

    /** Adds a chunk to the collected text, and finishes the transaction with the last one. */
    method AddChunk(driver: MarlinDriver, r: Request)
      requires driver.Valid()
      modifies this`transactionBuffer, this`active, this`answers, driver`state, driver`calls, driver.gcodeBuffer
      ensures driver.Valid()
      ensures Trx() == Collect(old(Trx()), r)
      ensures driver.calls == old(driver.calls) + Deliver(old(Trx()), r)
      ensures driver.View() == Obeyed(old(driver.View()), Deliver(old(Trx()), r), old(driver.gcodeBuffer.md),
                                      old(driver.gcodeBuffer.bufferSize), driver.gcodeBuffer.maxBufferSize)
      ensures answers == old(answers) + [AnswerToChunk(old(Trx()), r, old(driver.gcodeBuffer.md), old(driver.gcodeBuffer.bufferSize),
                                                       driver.gcodeBuffer.maxBufferSize)]
    {
      hide Outcome, Obeyed, MarlinDriver.Valid, MarlinDriver.View;
      ObeyedNone(driver.View(), driver.gcodeBuffer.md, driver.gcodeBuffer.bufferSize, driver.gcodeBuffer.maxBufferSize);
      if r.first {
        transactionBuffer := "";
        active := true;
      }
      transactionBuffer := transactionBuffer + r.data;
      if r.last {
        FinishTransaction(driver, r.totalLines, r.meta);
      } else {
        Send(Done);
      }
    }

    /** Serves an append command: its chunk joins the transaction, and the last one hands the whole text to the
        driver. A client whose transactions were cancelled is told so, and served all the same. */
    method AppendGCode(driver: MarlinDriver)
      requires driver.Valid() && Complete(buffer) > 0
      requires Decode(buffer).code == GCODE_APPEND && WellTyped(Decode(buffer).args)
      modifies this`transactionBuffer, this`active, this`answers, driver`state, driver`calls, driver.gcodeBuffer
      ensures driver.Valid()
      ensures Trx() == After(old(Trx()), Decode(buffer))
      ensures driver.calls == old(driver.calls) + Effects(old(Trx()), Decode(buffer), NO_FILES)
      ensures driver.View() == Obeyed(old(driver.View()), Effects(old(Trx()), Decode(buffer), NO_FILES), old(driver.gcodeBuffer.md),
                                      old(driver.gcodeBuffer.bufferSize), driver.gcodeBuffer.maxBufferSize)
      ensures answers == old(answers) + AnswersTo(old(Trx()), Decode(buffer), cancelled, NO_FILES, old(driver.gcodeBuffer.md),
                                                  old(driver.gcodeBuffer.bufferSize), driver.gcodeBuffer.maxBufferSize)
    {
      ghost var c := Decode(buffer);
      OpenCommand(buffer);
      hide Complete, ArgsOf, Decode, UpToNul, ReadShort, ReadLong, ReadRequest, AnswerToChunk, MarlinDriver.Valid, MarlinDriver.View, Collect, Deliver, Obeyed;
      ObeyedNone(driver.View(), driver.gcodeBuffer.md, driver.gcodeBuffer.bufferSize, driver.gcodeBuffer.maxBufferSize);
      var numArgs := ReadShort(buffer, 2);
      if numArgs == 0 {
        Send(Error("missing argument"));
        return;
      }
      if cancelled {
        Send(TransactionCancelled);
      }
      var r := ReadArguments(buffer);
      AddChunk(driver, r);
    }
  }

  const NO_FILES: Files := f => None

  /** The answer to a last chunk: what the buffer says to a text of that length. */
  function Outcome(md: MetaData, bufferSize: int, maxBufferSize: nat, length: nat, meta: MetaData): Answer {
    var result := Admission(md, bufferSize, maxBufferSize, length, Some(meta));
    if result == Ok then Done else AddFailed(result)
  }

  function AnswerToChunk(t: Transaction, r: Request, md: MetaData, bufferSize: int, maxBufferSize: nat): Answer {
    if r.last then Outcome(md, bufferSize, maxBufferSize, |(if r.first then "" else t.buffer) + r.data|, r.meta) else Done
  }

  /** What a client is told in answer to one of its commands, given its transaction and what the buffer holds then. */
  function AnswersTo(t: Transaction, c: Command, cancelled: bool, files: Files, md: MetaData, bufferSize: int, maxBufferSize: nat): seq<Answer> {
    if c.code == GCODE_APPEND then
      if c.args == [] then [Error("missing argument")]
      else if !WellTyped(c.args) then []
      else (if cancelled then [TransactionCancelled] else []) + [AnswerToChunk(t, ReadRequest(c.args), md, bufferSize, maxBufferSize)]
    else if c.code == GCODE_CLEAR || c.code == GCODE_STARTPRINT || c.code == GCODE_STOPPRINT then [Done]
    else if c.code == GCODE_APPEND_FILE && c.args != [] then
      [if t.active then RetryLater else if files(UpToNul(c.args[0])).Some? then Done else Error("error reading file")]
    else []
  }

  /** How many answers that is; it does not depend on the buffer. */
  function AnswerCount(t: Transaction, c: Command, cancelled: bool, files: Files): nat {
    |AnswersTo(t, c, cancelled, files, NO_META, 0, 0)|
  }

  function AnswerCounts(t: Transaction, cs: seq<Command>, cancelled: bool, files: Files): nat
    decreases |cs|
  {
    if cs == [] then 0 else AnswerCount(t, cs[0], cancelled, files) + AnswerCounts(After(t, cs[0]), cs[1..], cancelled, files)
  }

  lemma CountOfAnswers(t: Transaction, c: Command, cancelled: bool, files: Files, md: MetaData, bufferSize: int, maxBufferSize: nat)
    ensures |AnswersTo(t, c, cancelled, files, md, bufferSize, maxBufferSize)| == AnswerCount(t, c, cancelled, files)
  {
    hide ReadRequest, AnswerToChunk, WellTyped;
  }

  /** Commands that cancel the transactions of all other clients. */
  predicate Cancels(c: Command) {
    c.code == GCODE_CLEAR || c.code == GCODE_STOPPRINT
  }

  lemma CancelsMeans(c: Command)
    ensures Cancels(c) <==> c.code in {0x12, 0x16}
  {
  }

  predicate CancelsAny(cs: seq<Command>) {
    exists k :: 0 <= k < |cs| && Cancels(cs[k])
  }

  /** Reads flags, numbers, source and text of an append command, argument by argument. */
  method ReadArguments(buf: Bytes) returns (r: Request)
    requires Complete(buf) > 0 && ArgsOf(buf) != [] && WellTyped(ArgsOf(buf))
    ensures r == ReadRequest(ArgsOf(buf))
  {
    OpenCommand(buf);
    var numArgs := ReadShort(buf, 2);
    hide Complete, ArgsOf, UpToNul, ReadShort, ReadLong;
    var flags := FIRST_CHUNK_BIT + LAST_CHUNK_BIT;
    if numArgs >= 2 {
      var arg := CmdGetArg(buf, 1);
      flags := ReadShort(arg.bytes, 0);
    }
    var totalLines := GetLongArg(buf, 2, numArgs);
    var seqNumber := GetLongArg(buf, 3, numArgs);
    var seqTotal := GetLongArg(buf, 4, numArgs);
    var source := None;
    if numArgs >= 6 {
      var arg := CmdGetArg(buf, 5);
      source := Some(UpToNul(arg.bytes));
    }
    var data := CmdGetArg(buf, 0);
    r := Request(UpToNul(data.bytes), flags % 2 == 1, flags / 2 % 2 == 1, totalLines, MetaData(seqNumber, seqTotal, source));
  }

  /** The end code of a stop command, if it has one. */
  method ReadEndCode(buf: Bytes) returns (endCode: string)
    requires Complete(buf) > 0
    ensures endCode == if ArgsOf(buf) != [] then UpToNul(ArgsOf(buf)[0]) else ""
  {
    OpenCommand(buf);
    hide Complete, ArgsOf, UpToNul, ReadShort;
    endCode := "";
    if ReadShort(buf, 2) > 0 {
      var arg := CmdGetArg(buf, 0);
      endCode := UpToNul(arg.bytes);
    }
  }

  method GetLongArg(buf: Bytes, i: nat, numArgs: nat) returns (v: int)
    requires Complete(buf) > 0 && numArgs == |ArgsOf(buf)| && WellTyped(ArgsOf(buf)) && 2 <= i < 5
    ensures v == LongArg(ArgsOf(buf), i)
  {
    v := -1;
    if numArgs > i {
      var arg := CmdGetArg(buf, i);
      v := ToInt32(ReadLong(arg.bytes, 0));
    }
  }

  lemma EffectsOfAppend(t: Transaction, c: Command, f: Files, g: Files)
    requires c.code == GCODE_APPEND
    ensures Effects(t, c, f) == Effects(t, c, g)
    ensures forall cancelled, md, size, max :: AnswersTo(t, c, cancelled, f, md, size, max) == AnswersTo(t, c, cancelled, g, md, size, max)
  {
  }

  /** Commands whose arguments the handlers can read: numbers long enough, and a name with a file command. */
  predicate Readable(c: Command) {
    (c.code == GCODE_APPEND ==> WellTyped(c.args)) && (c.code == GCODE_APPEND_FILE ==> c.args != [])
  }

  predicate AllReadable(cs: seq<Command>) {
    forall k :: 0 <= k < |cs| ==> Readable(cs[k])
  }

  class Server {
    const driver: MarlinDriver
    const files: Files
    var clients: seq<Client>

    constructor (driver: MarlinDriver, files: Files)
      requires driver.Valid()
      ensures Valid() && this.driver == driver && this.files == files && clients == []
    {
      this.driver, this.files, clients := driver, files, [];
    }

    ghost predicate Valid()
      reads this, driver, driver.gcodeBuffer, driver.serial
    {
      && driver.Valid()
      && (forall j, k :: 0 <= j < k < |clients| ==> clients[j] != clients[k])
    }

    /** A new connection. */
    method AddClient() returns (client: Client)
      requires Valid()
      modifies this`clients
      ensures Valid() && fresh(client) && clients == old(clients) + [client]
      ensures client.buffer == [] && client.Trx() == NO_TRANSACTION && !client.cancelled && client.answers == []
    {
      client := new Client();
      clients := clients + [client];
    }

    /** Marks the transactions of all clients but one. */
    method CancelAllTransactions(exclude: Client)
      requires exclude in clients
      modifies clients
      ensures forall c :: c in clients ==> c.cancelled == (old(c.cancelled) || c != exclude)
      ensures forall c :: c in clients ==> c.buffer == old(c.buffer) && c.Trx() == old(c.Trx()) && c.answers == old(c.answers)
    {
      var k := 0;
      while k < |clients|
        invariant k <= |clients|
        invariant forall c :: c in clients ==> c.cancelled == (old(c.cancelled) || (c != exclude && c in clients[..k]))
        invariant forall c :: c in clients ==> c.buffer == old(c.buffer) && c.Trx() == old(c.Trx()) && c.answers == old(c.answers)
      {
        assert clients[..k + 1] == clients[..k] + [clients[k]];
        if clients[k] != exclude {
          clients[k].cancelled := true;
        }
        k := k + 1;
      }
      assert clients[..k] == clients;
    }

    /** Appends a file unless the client has a transaction in progress. */
    method AppendFile(client: Client)
      requires driver.Valid() && Complete(client.buffer) > 0
      requires Decode(client.buffer).code == GCODE_APPEND_FILE && Decode(client.buffer).args != []
      modifies client`answers, driver`state, driver`calls, driver.gcodeBuffer
      ensures driver.Valid()
      ensures driver.calls == old(driver.calls) + Effects(client.Trx(), Decode(client.buffer), files)
      ensures driver.View() == Obeyed(old(driver.View()), Effects(client.Trx(), Decode(client.buffer), files), old(driver.gcodeBuffer.md),
                                      old(driver.gcodeBuffer.bufferSize), driver.gcodeBuffer.maxBufferSize)
      ensures client.answers == old(client.answers) + AnswersTo(client.Trx(), Decode(client.buffer), client.cancelled, files, NO_META, 0, 0)
    {
      hide Complete, ArgsOf, UpToNul, ReadShort, Obeyed, MarlinDriver.Valid, MarlinDriver.View;
      ObeyedNone(driver.View(), driver.gcodeBuffer.md, driver.gcodeBuffer.bufferSize, driver.gcodeBuffer.maxBufferSize);
      if client.active {
        client.Send(RetryLater);
        return;
      }
      var name := CmdGetArg(client.buffer, 0);
      var contents := files(UpToNul(name.bytes));
      if contents.Some? {
        ObeyedOne(driver.View(), Call.AppendGCode(UpToNul(contents.value), -1, None), driver.gcodeBuffer.md,
                  driver.gcodeBuffer.bufferSize, driver.gcodeBuffer.maxBufferSize);
        var _ := driver.AppendGCode(UpToNul(contents.value), -1, None);
        client.Send(Done);
      } else {
        client.Send(Error("error reading file"));
      }
    }

    method StopPrint(client: Client)
      requires Valid() && client in clients && Complete(client.buffer) > 0
      requires Decode(client.buffer).code == GCODE_STOPPRINT
      modifies clients, driver`state, driver`wire, driver`calls, driver.gcodeBuffer
      ensures Valid()
      ensures forall c :: c in clients ==> c.buffer == old(c.buffer) && c.Trx() == old(c.Trx())
      ensures forall c :: c in clients ==> c.cancelled == (old(c.cancelled) || c != client)
      ensures forall c :: c in clients ==> c.answers == old(c.answers) + if c == client then [Done] else []
      ensures driver.calls == old(driver.calls) + Effects(client.Trx(), Decode(client.buffer), files)
      ensures driver.View() == Obeyed(old(driver.View()), Effects(client.Trx(), Decode(client.buffer), files), old(driver.gcodeBuffer.md),
                                      old(driver.gcodeBuffer.bufferSize), driver.gcodeBuffer.maxBufferSize)
    {
      hide Complete, ArgsOf, UpToNul, ReadShort, MarlinDriver.Valid, MarlinDriver.View, Obeyed, M.Step, CleanLines, Admission;
      var endCode := ReadEndCode(client.buffer);
      ObeyedOne(driver.View(), Call.StopPrint(endCode), driver.gcodeBuffer.md, driver.gcodeBuffer.bufferSize, driver.gcodeBuffer.maxBufferSize);
      CancelAllTransactions(client);
      var _ := driver.StopPrint(endCode);
      client.Send(Done);
    }

    /** Cancels all other transactions and clears the buffer. */
    method ClearGCode(client: Client)
      requires Valid() && client in clients
      modifies clients, driver`state, driver`calls, driver.gcodeBuffer
      ensures Valid() && driver.calls == old(driver.calls) + [Call.ClearGCode]
      ensures driver.View() == M.Step(old(driver.View()), M.Clear)
      ensures forall c :: c in clients ==> c.buffer == old(c.buffer) && c.Trx() == old(c.Trx())
      ensures forall c :: c in clients ==> c.cancelled == (old(c.cancelled) || c != client)
      ensures forall c :: c in clients ==> c.answers == old(c.answers) + if c == client then [Done] else []
    {
      hide MarlinDriver.Valid, MarlinDriver.View, M.Step;
      CancelAllTransactions(client);
      driver.ClearGCode();
      client.Send(Done);
    }

    method StartPrint(client: Client)
      requires Valid() && client in clients
      modifies client`answers, driver`state, driver`wire, driver`calls, driver.gcodeBuffer
      ensures Valid() && driver.calls == old(driver.calls) + [Call.StartPrint]
      ensures driver.View() == M.Step(old(driver.View()), M.Start)
      ensures client.answers == old(client.answers) + [Done]
    {
      hide MarlinDriver.Valid, MarlinDriver.View, M.Step;
      var _ := driver.StartPrint();
      client.Send(Done);
    }

    /** Runs the command at the start of a client's buffer. */
    method RunCommand(client: Client)
      requires Valid() && client in clients && Complete(client.buffer) > 0
      requires Readable(Decode(client.buffer))
      modifies clients, driver`state, driver`wire, driver`calls, driver.gcodeBuffer
      ensures Valid()
      ensures client.buffer == old(client.buffer)
      ensures client.Trx() == After(old(client.Trx()), Decode(client.buffer))
      ensures client.cancelled == old(client.cancelled)
      ensures client.answers == old(client.answers)
                + AnswersTo(old(client.Trx()), Decode(client.buffer), client.cancelled, files, old(driver.gcodeBuffer.md),
                            old(driver.gcodeBuffer.bufferSize), driver.gcodeBuffer.maxBufferSize)
      ensures forall c :: c in clients && c != client ==> c.buffer == old(c.buffer) && c.Trx() == old(c.Trx()) && c.answers == old(c.answers)
      ensures forall c :: c in clients && c != client ==> c.cancelled == (old(c.cancelled) || Decode(client.buffer).code in {0x12, 0x16})
      ensures driver.calls == old(driver.calls) + Effects(old(client.Trx()), Decode(client.buffer), files)
      ensures driver.View() == Obeyed(old(driver.View()), Effects(old(client.Trx()), Decode(client.buffer), files),
                                      old(driver.gcodeBuffer.md), old(driver.gcodeBuffer.bufferSize), driver.gcodeBuffer.maxBufferSize)
    {
      hide Complete, ArgsOf, UpToNul, ReadShort, ReadRequest, WellTyped, MarlinDriver.Valid, MarlinDriver.View, Obeyed, M.Step;
      ObeyedNone(driver.View(), driver.gcodeBuffer.md, driver.gcodeBuffer.bufferSize, driver.gcodeBuffer.maxBufferSize);
      ObeyedOne(driver.View(), Call.ClearGCode, driver.gcodeBuffer.md, driver.gcodeBuffer.bufferSize, driver.gcodeBuffer.maxBufferSize);
      ObeyedOne(driver.View(), Call.StartPrint, driver.gcodeBuffer.md, driver.gcodeBuffer.bufferSize, driver.gcodeBuffer.maxBufferSize);
      var code := ReadShort(client.buffer, 0);
      if code == GCODE_APPEND {
        EffectsOfAppend(client.Trx(), Decode(client.buffer), NO_FILES, files);
        client.AppendGCode(driver);
      } else if code == GCODE_CLEAR {
        ClearGCode(client);
      } else if code == GCODE_APPEND_FILE {
        AppendFile(client);
      } else if code == GCODE_STARTPRINT {
        StartPrint(client);
      } else if code == GCODE_STOPPRINT {
        StopPrint(client);
      }
    }

    /** Reads what has arrived from one client and runs every complete command: what Arrive says of the
        transaction, the undecoded bytes and the driver, and no other client's state is touched. */
    method Poll(i: nat, data: Bytes)
      requires Valid() && i < |clients|
      requires AllReadable(DecodeAll(Commands(clients[i].buffer + data)))
      modifies clients, driver`state, driver`wire, driver`calls, driver.gcodeBuffer
      ensures Valid()
      ensures var now, t := old(clients[i].buffer) + data, old(clients[i].Trx());
              && clients[i].buffer == Undecoded(now)
              && clients[i].Trx() == AfterAll(t, DecodeAll(Commands(now)))
              && driver.calls == old(driver.calls) + EffectsAll(t, DecodeAll(Commands(now)), files)
              && |clients[i].answers| == |old(clients[i].answers)| + AnswerCounts(t, DecodeAll(Commands(now)), clients[i].cancelled, files)
      ensures clients[i].cancelled == old(clients[i].cancelled)
      ensures forall c :: c in clients && c != clients[i] ==> c.buffer == old(c.buffer) && c.Trx() == old(c.Trx()) && c.answers == old(c.answers)
      ensures forall c :: c in clients && c != clients[i] ==>
                c.cancelled == (old(c.cancelled) || CancelsAny(DecodeAll(Commands(old(clients[i].buffer) + data))))
    {
      hide Complete, Commands, Undecoded, DecodeAll, Decode, AfterAll, EffectsAll, Effects, After, AllReadable, Readable, AnswersTo;
      hide Cancels, CancelsAny, AnswerCount, AnswerCounts, Obeyed, MarlinDriver.View, MarlinDriver.Valid;
      var client := clients[i];
      client.ReadData(data);
      ghost var now, t, calls := client.buffer, client.Trx(), driver.calls;
      NothingRun(t, files);
      var l := CmdIsComplete(client.buffer);
      while l > 0
        invariant l == Complete(client.buffer)
        invariant Valid() && client in clients
        invariant AllReadable(DecodeAll(Commands(client.buffer)))
        invariant driver.calls + EffectsAll(client.Trx(), DecodeAll(Commands(client.buffer)), files)
               == calls + EffectsAll(t, DecodeAll(Commands(now)), files)
        invariant AfterAll(client.Trx(), DecodeAll(Commands(client.buffer))) == AfterAll(t, DecodeAll(Commands(now)))
        invariant Undecoded(client.buffer) == Undecoded(now)
        invariant client.cancelled == old(client.cancelled)
        invariant |client.answers| + AnswerCounts(client.Trx(), DecodeAll(Commands(client.buffer)), client.cancelled, files)
               == |old(client.answers)| + AnswerCounts(t, DecodeAll(Commands(now)), client.cancelled, files)
        invariant forall c :: c in clients && c != client ==> c.buffer == old(c.buffer) && c.Trx() == old(c.Trx()) && c.answers == old(c.answers)
        invariant forall c :: c in clients && c != client ==>
                    (c.cancelled || CancelsAny(DecodeAll(Commands(client.buffer)))) == (old(c.cancelled) || CancelsAny(DecodeAll(Commands(now))))
        decreases |client.buffer|
      {
        NextRun(client.Trx(), client.buffer, files);
        ghost var more := EffectsAll(After(client.Trx(), Decode(client.buffer)), DecodeAll(Commands(client.buffer[l..])), files);
        RegroupCalls(driver.calls, Effects(client.Trx(), Decode(client.buffer), files), more);
        CountOfAnswers(client.Trx(), Decode(client.buffer), client.cancelled, files, driver.gcodeBuffer.md,
                       driver.gcodeBuffer.bufferSize, driver.gcodeBuffer.maxBufferSize);
        NextAnswers(client.Trx(), client.buffer, client.cancelled, files);
        CancelsMeans(Decode(client.buffer));
        RunCommand(client);
        client.RemoveCommand();
        l := CmdIsComplete(client.buffer);
      }
      FirstCommand(client.buffer);
      NothingRun(client.Trx(), files);
    }
  }

  lemma NothingRun(t: Transaction, files: Files)
    ensures DecodeAll([]) == [] && AfterAll(t, []) == t && EffectsAll(t, [], files) == []
    ensures AnswerCounts(t, [], false, files) == AnswerCounts(t, [], true, files) == 0 && !CancelsAny([])
  {
  }

  /** The first of the commands in a buffer, and the others, by their answers and cancellations. */
  lemma NextAnswers(t: Transaction, buf: Bytes, cancelled: bool, files: Files)
    requires Complete(buf) > 0
    ensures var c, cs, rest := Decode(buf), DecodeAll(Commands(buf)), DecodeAll(Commands(buf[Complete(buf)..]));
            && AnswerCounts(t, cs, cancelled, files) == AnswerCount(t, c, cancelled, files) + AnswerCounts(After(t, c), rest, cancelled, files)
            && (CancelsAny(cs) <==> Cancels(c) || CancelsAny(rest))
  {
    var c, cs, rest := Decode(buf), DecodeAll(Commands(buf)), DecodeAll(Commands(buf[Complete(buf)..]));
    NextRun(t, buf, _ => None);
    hide Complete, Commands, DecodeAll, Decode, After, Cancels, AnswerCount;
    assert cs == [c] + rest;
    assert cs[0] == c && cs[1..] == rest;
    if CancelsAny(rest) {
      var k :| 0 <= k < |rest| && Cancels(rest[k]);
      assert cs[k + 1] == rest[k];
    }
  }

  lemma DecodeIsLocal(buf: Bytes)
    requires Complete(buf) > 0
    ensures Decode(buf[..Complete(buf)]) == Decode(buf)
  {
    var e := Complete(buf);
    var own := buf[..e];
    OpenCommand(buf);
    assert ReadShort(own, 0) == ReadShort(buf, 0) && ReadShort(own, 2) == ReadShort(buf, 2);
    hide ArgsEnd, ParseArgs;
    ParseIsLocal(buf, own, 4, ReadShort(buf, 2));
  }

  /** The first of the commands in a buffer, and the others. */
  lemma NextRun(t: Transaction, buf: Bytes, files: Files)
    requires Complete(buf) > 0
    ensures var c, rest := Decode(buf), DecodeAll(Commands(buf[Complete(buf)..]));
            && DecodeAll(Commands(buf)) == [c] + rest
            && EffectsAll(t, [c] + rest, files) == Effects(t, c, files) + EffectsAll(After(t, c), rest, files)
            && AfterAll(t, [c] + rest) == AfterAll(After(t, c), rest)
            && Undecoded(buf) == Undecoded(buf[Complete(buf)..])
            && (AllReadable([c] + rest) ==> Readable(c) && AllReadable(rest))
  {
    hide Complete, Commands, Undecoded, Decode, Effects, After, Readable;
    var c, rest := Decode(buf), DecodeAll(Commands(buf[Complete(buf)..]));
    FirstCommand(buf);
    DecodeIsLocal(buf);
    assert ([c] + rest)[1..] == rest && ([c] + rest)[0] == c;
    assert forall k :: 0 <= k < |rest| ==> rest[k] == ([c] + rest)[k + 1];
  }
}
