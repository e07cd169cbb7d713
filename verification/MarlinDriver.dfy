/** The Marlin driver with its buffer and serial port, each method proved to make
    the step of the state machine in MarlinSpec. */
module Marlin {
  import opened Buckets
  import opened Calls
  import opened Common
  import opened GCodeText
  import opened GCodeBuffers
  import opened MarlinSpec
  import opened Metadata
  import opened SerialPort
  import opened StoredText

  const MAX_ATTEMPTS := 3

  class MarlinDriver {
    const gcodeBuffer: GCodeBuffer
    const serial: Serial

    var state: State
    var portOpen: bool
    var checkConnection: bool
    var checkTemperatureInterval: int
    var wire: seq<string>

    var checkTemperatureAttempt: nat

    // For each temperature request that was sent, how many lines had been sent before.
    var requests: seq<nat>

    // The calls received so far from command handlers.
    ghost var calls: seq<Call>

    ghost predicate Valid()
      reads this, gcodeBuffer, serial
    {
      Steady() && NoNewline(serial.buffer)
    }

    /** Validity between two replies of one read. */
    ghost predicate Steady()
      reads this, gcodeBuffer
    {
      Between() && Safe(View())
    }

    /** The state of the machine this driver stands for. */
    ghost function View(): Driver
      reads this, gcodeBuffer
    {
      Driver(state, portOpen, checkConnection, checkTemperatureInterval,
             gcodeBuffer.Queue(), gcodeBuffer.currentLine, gcodeBuffer.totalLinesSent, wire)
    }

    /** What holds between the steps of one operation, when the line in flight may be gone. */
    ghost predicate Between()
      reads this, gcodeBuffer
    {
      && gcodeBuffer.Valid() && gcodeBuffer.past.phantom == 0 && gcodeBuffer.past.erased >= 0
      && !gcodeBuffer.keepMacros
    }

    constructor (maxBucketSize: nat, maxBufferSize: nat, splitSize: nat)
      requires maxBucketSize > 0
      ensures Valid() && View() == INITIAL && calls == [] && fresh(gcodeBuffer) && fresh(serial)
      ensures state == Disconnected && checkConnection && checkTemperatureInterval == 5000 && requests == []
    {
      gcodeBuffer := new GCodeBuffer(maxBucketSize, maxBufferSize, splitSize);
      serial := new Serial();
      state, portOpen, checkConnection, checkTemperatureInterval, wire := Disconnected, false, true, 5000, [];
      checkTemperatureAttempt, requests, calls := 0, [], [];
    }

    predicate IsPrinterOnline()
      reads this
    {
      Online(state)
    }

    /** Opening the port may fail at either of its two steps. */
    method OpenConnection(succeeded: bool, speedSet: bool)
      requires Valid()
      modifies this`state, this`portOpen
      ensures Valid()
      ensures View() == if succeeded then Step(old(View()), Connect(speedSet)) else old(View())
    {
      if !succeeded {
        return;
      }
      portOpen := true;
      if speedSet {
        state := Connecting;
      }
    }

    method CloseConnection()
      requires Valid()
      modifies this`state, this`portOpen
      ensures Valid() && View() == Step(old(View()), Disconnect)
    {
      state := Disconnected;
      portOpen := false;
    }

    method SendCode(code: string)
      modifies this`wire
      ensures wire == if portOpen then old(wire) + [code] else old(wire)
    {
      if portOpen {
        wire := wire + [code];
      }
    }

    method ResetPrint() returns (done: bool)
      requires Between()
      modifies this`state, gcodeBuffer`currentLine
      ensures Between() && View() == Reset(old(View()))
    {
      if !IsPrinterOnline() {
        return false;
      }
      state := Idle;
      gcodeBuffer.SetCurrentLine(0);
      return true;
    }

    method PrintNextLine()
      requires Between()
      modifies this`state, this`wire, gcodeBuffer`currentLine
      ensures Between() && View() == PrintNext(old(View()))
    {
      var line, count := gcodeBuffer.GetNextLine(1);
      if count > 0 {
        SendCode(line);
        gcodeBuffer.SetCurrentLine(gcodeBuffer.currentLine + 1);
      } else {
        var _ := ResetPrint();
      }
    }

    method SetGCode(gcode: string) returns (result: SetResult)
      requires Between()
      modifies this`state, gcodeBuffer
      ensures Between()
      ensures result == Admission(NO_META, 0, gcodeBuffer.maxBufferSize, |gcode|, None)
      ensures View() == Replace(old(View()), CleanLines(gcode, false), result == Ok)
    {
      hide CleanLines;
      result := gcodeBuffer.Set(gcode, -1, None);
      if result == Ok {
        if state == Idle {
          state := Buffering;
        }
      }
    }

    method AppendGCode(gcode: string, totalLines: int, meta: Option<MetaData>) returns (result: SetResult)
      requires Valid()
      modifies this`state, this`calls, gcodeBuffer
      ensures Valid()
      ensures calls == old(calls) + [Call.AppendGCode(gcode, totalLines, meta)]
      ensures result == Admission(old(gcodeBuffer.md), old(gcodeBuffer.bufferSize), gcodeBuffer.maxBufferSize, |gcode|, meta)
      ensures View() == if result == Ok then Step(old(View()), Append(CleanLines(gcode, false))) else old(View())
      ensures result == Ok ==>
                && gcodeBuffer.md == NextMetaData(old(gcodeBuffer.md), meta)
                && gcodeBuffer.bufferSize <= old(gcodeBuffer.bufferSize) + |gcode| + if gcode == "" then 0 else 1
      ensures result != Ok ==> gcodeBuffer.md == old(gcodeBuffer.md) && gcodeBuffer.bufferSize == old(gcodeBuffer.bufferSize)
    {
      hide CleanLines, TextGrowth, WipedBytes, LacksNewlineOnly;
      GrowthIsBounded(gcodeBuffer.buckets, gcode, gcodeBuffer.maxBucketSize, gcodeBuffer.splitSize, false);
      calls := calls + [Call.AppendGCode(gcode, totalLines, meta)];
      result := gcodeBuffer.Append(gcode, totalLines, meta);
      if result == Ok {
        if state == Idle {
          state := Buffering;
        }
      }
    }

    method ClearGCode()
      requires Valid()
      modifies this`state, this`calls, gcodeBuffer
      ensures Valid() && View() == Step(old(View()), Clear)
      ensures calls == old(calls) + [Call.ClearGCode]
    {
      calls := calls + [Call.ClearGCode];
      gcodeBuffer.Clear();
      if state == Buffering || state == Printing || state == Stopping {
        state := Idle;
      }
    }

    /** startPrint(state) of the Marlin driver, on top of that of the abstract driver. */
    method StartPrintAs(mode: State) returns (started: bool)
      requires Between() && Active(mode)
      modifies this`state, this`wire, gcodeBuffer`currentLine
      ensures Between() && View() == MarlinSpec.StartPrint(old(View()), mode)
      ensures started == Online(old(state))
    {
      if !IsPrinterOnline() {
        return false;
      }
      if state != Printing && state != Stopping {
        var _ := ResetPrint();
      }
      state := mode;
      PrintNextLine();
      return true;
    }

    method StartPrint() returns (started: bool)
      requires Valid()
      modifies this`state, this`wire, this`calls, gcodeBuffer`currentLine
      ensures Valid() && View() == Step(old(View()), Start)
      ensures calls == old(calls) + [Call.StartPrint]
    {
      calls := calls + [Call.StartPrint];
      StepIsSafe(View(), Start);
      started := StartPrintAs(Printing);
    }

    method StartPrintWith(gcode: string) returns (started: bool)
      requires Valid()
      modifies this`state, this`wire, gcodeBuffer
      ensures Valid()
      ensures gcode == "" ==> View() == Step(old(View()), Start)
      ensures gcode != "" ==>
                View() == Step(old(View()), StartWith(CleanLines(gcode, false), Admission(NO_META, 0, gcodeBuffer.maxBufferSize, |gcode|, None) == Ok))
    {
      hide CleanLines, Replace, MarlinSpec.StartPrint;
      ghost var before := View();
      if |gcode| > 0 {
        var result := SetGCode(gcode);
        StepIsSafe(before, StartWith(CleanLines(gcode, false), result == Ok));
      } else {
        StepIsSafe(before, Start);
      }
      started := StartPrintAs(Printing);
    }

    method StopPrint(endCode: string) returns (started: bool)
      requires Valid()
      modifies this`state, this`wire, this`calls, gcodeBuffer
      ensures Valid()
      ensures calls == old(calls) + [Call.StopPrint(endCode)]
      ensures View() == Step(old(View()), Stop(CleanLines(endCode, false), Admission(NO_META, 0, gcodeBuffer.maxBufferSize, |endCode|, None) == Ok))
    {
      hide CleanLines, Replace, MarlinSpec.StartPrint, Reset;
      ghost var before := View();
      calls := calls + [Call.StopPrint(endCode)];
      var _ := ResetPrint();
      var result := SetGCode(endCode);
      StepIsSafe(before, Stop(CleanLines(endCode, false), result == Ok));
      started := StartPrintAs(Stopping);
    }

    method TemperatureMessage()
      requires Steady() && portOpen
      modifies this`state, this`checkConnection, this`checkTemperatureInterval
      ensures Steady() && View() == OnReply(old(View()), Temperature)
    {
      if checkConnection {
        checkConnection := false;
        state := Idle;
      }
      if state == Printing || state == Stopping {
        checkTemperatureInterval := 5000;
      } else {
        checkTemperatureInterval := 1500;
      }
    }

    /** The line in flight is done: it is erased, and the next one is sent. */
    method LineConfirmed()
      requires Steady() && Active(state)
      modifies this`state, this`wire, gcodeBuffer
      ensures Between() && View() == PrintNext(Retire(old(View())))
    {
      hide PrintNext;
      var _ := gcodeBuffer.EraseLine(1);
      PrintNextLine();
    }

    method ReadResponseCode(code: string)
      requires Steady() && portOpen
      modifies this`state, this`wire, this`checkConnection, this`checkTemperatureInterval, gcodeBuffer
      ensures Steady() && View() == Step(old(View()), Received(Classify(code)))
    {
      hide PrintNext, Contains;
      ghost var before := View();
      StepIsSafe(before, Received(Classify(code)));
      hide Safe;
      if "ok T:" <= code || "T:" <= code {
        TemperatureMessage();
      } else if "ok" <= code {
        if state == Printing || state == Stopping {
          LineConfirmed();
        }
      } else if Contains(code, "start") {
      } else if Contains(code, "Resend:") {
        gcodeBuffer.SetCurrentLine(gcodeBuffer.currentLine - 1);
        PrintNextLine();
      }
    }

    /** One turn of the update loop: if it is time to look at the port, read what has arrived and handle
        every complete reply. Before that, a temperature request is sent if one is due: until the printer has
        answered one, only from the fourth time on. */
    method Update(temperatureDue: bool, timeElapsed: bool, arrived: string)
      requires Valid()
      modifies this`state, this`wire, this`checkConnection, this`checkTemperatureInterval, gcodeBuffer, serial
      modifies this`checkTemperatureAttempt, this`requests
      ensures Valid()
      ensures var looks := old(portOpen) && (Active(old(state)) || timeElapsed);
              var data := if looks then old(serial.buffer) + arrived else old(serial.buffer);
              && View() == Handle(old(View()), if looks then RawLines(data) else [])
              && serial.buffer == Unfinished(data)
      ensures var due := old(portOpen) && old(checkTemperatureInterval) != -1 && temperatureDue;
              var waits := old(checkConnection) && old(checkTemperatureAttempt) < 3;
              && requests == (if due && !waits then old(requests) + [|old(wire)|] else old(requests))
              && checkTemperatureAttempt == old(checkTemperatureAttempt) + if due && waits then 1 else 0
    {
      NoLinesIn(serial.buffer);
      hide RawLines, Unfinished, NoNewline, ReplyText, OnReply;
      if !portOpen {
        return;
      }
      if checkTemperatureInterval != -1 && temperatureDue {
        if checkConnection {
          if checkTemperatureAttempt < MAX_ATTEMPTS {
            checkTemperatureAttempt := checkTemperatureAttempt + 1;
          } else {
            CheckTemperature();
          }
        } else {
          CheckTemperature();
        }
      }
      if state == Printing || state == Stopping || timeElapsed {
        var rv := serial.ReadData(arrived);
        if rv > 0 {
          HandleLines();
        } else {
          assert serial.buffer == old(serial.buffer);
        }
      }
    }

    /** Sends a temperature request. */
    method CheckTemperature()
      modifies this`requests
      ensures requests == if portOpen then old(requests) + [|wire|] else old(requests)
    {
      if portOpen {
        requests := requests + [|wire|];
      }
    }

    method HandleLines()
      requires Steady() && portOpen
      modifies this`state, this`wire, this`checkConnection, this`checkTemperatureInterval, gcodeBuffer, serial
      ensures Valid()
      ensures View() == Handle(old(View()), RawLines(old(serial.buffer)))
      ensures serial.buffer == Unfinished(old(serial.buffer))
    {
      hide RawLines, Unfinished, NoNewline, ReplyText, OnReply, Step;
      while true
        invariant Steady() && portOpen
        invariant Handle(View(), RawLines(serial.buffer)) == old(Handle(View(), RawLines(serial.buffer)))
        invariant Unfinished(serial.buffer) == Unfinished(old(serial.buffer))
        decreases |serial.buffer|
      {
        var line := serial.ExtractLine();
        if line.None? {
          NoLinesIn(serial.buffer);
          break;
        }
        ReadResponseCode(line.value);
      }
    }
  }

  /** The driver after handling a list of raw reply lines. */
  ghost function Handle(d: Driver, raws: seq<string>): Driver
    decreases |raws|
  {
    if raws == [] then d else Handle(Step(d, Received(Classify(ReplyText(raws[0])))), raws[1..])
  }

  lemma NoLinesIn(s: string)
    requires NoNewline(s)
    ensures RawLines(s) == [] && Unfinished(s) == s
  {
    NewlineFound(s);
  }

  lemma {:induction false} HandleAppend(d: Driver, a: seq<string>, b: seq<string>)
    ensures Handle(d, a + b) == Handle(Handle(d, a), b)
    decreases |a|
  {
    if a == [] {
      assert a + b == b;
    } else {
      assert (a + b)[0] == a[0] && (a + b)[1..] == a[1..] + b;
      HandleAppend(Step(d, Received(Classify(ReplyText(a[0])))), a[1..], b);
    }
  }

  function ReplyEvents(raws: seq<string>): seq<Event> {
    if raws == [] then [] else [Received(Classify(ReplyText(raws[0])))] + ReplyEvents(raws[1..])
  }

  /** Handling reply lines is a run of the state machine, so what holds of runs holds of it. */
  lemma {:induction false} HandlingIsARun(d: Driver, raws: seq<string>)
    ensures Handle(d, raws) == Run(d, ReplyEvents(raws))
    decreases |raws|
  {
    if raws != [] {
      var e := Received(Classify(ReplyText(raws[0])));
      assert ([e] + ReplyEvents(raws[1..]))[1..] == ReplyEvents(raws[1..]);
      HandlingIsARun(Step(d, e), raws[1..]);
    }
  }

  /** The driver after the replies of several reads, each handled as soon as it has arrived. */
  ghost function HandleArrivals(d: Driver, pending: string, arrivals: seq<string>): Driver
    decreases |arrivals|
  {
    if arrivals == [] then d
    else HandleArrivals(Handle(d, RawLines(pending + arrivals[0])), Unfinished(pending + arrivals[0]), arrivals[1..])
  }

  lemma {:induction false} ArrivalsInOrder(d: Driver, pending: string, arrivals: seq<string>)
    ensures HandleArrivals(d, pending, arrivals) == Handle(d, LinesOfReads(pending, arrivals))
    decreases |arrivals|
  {
    if arrivals != [] {
      var now := pending + arrivals[0];
      hide RawLines, Unfinished, Step;
      ArrivalsInOrder(Handle(d, RawLines(now)), Unfinished(now), arrivals[1..]);
      HandleAppend(d, RawLines(now), LinesOfReads(Unfinished(now), arrivals[1..]));
    }
  }

  /** What the driver does depends on the byte stream from the printer only, not on how it arrives. */
  lemma DriverSeesTheStream(d: Driver, arrivals: seq<string>)
    ensures HandleArrivals(d, "", arrivals) == Run(d, ReplyEvents(RawLines(Flatten(arrivals))))
  {
    hide RawLines, Unfinished, Step, Handle, HandleArrivals;
    ArrivalsInOrder(d, "", arrivals);
    ReadSizesDoNotMatter("", arrivals);
    assert "" + Flatten(arrivals) == Flatten(arrivals);
    HandlingIsARun(d, RawLines(Flatten(arrivals)));
  }
}
