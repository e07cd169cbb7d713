/** What the events of the Marlin driver do, told by the text of the replies and by the fields they change, and
    how a driver comes online (src/drivers/MarlinDriver.cpp, src/drivers/AbstractDriver.cpp). */
module MarlinFacts {
  import opened Common
  import opened MarlinSpec

  /** A reply line that reports temperatures. */
  predicate ReportsTemperature(code: string) {
    "ok T:" <= code || "T:" <= code
  }

  lemma {:induction false} ContainsMeans(s: string, p: string)
    ensures Contains(s, p) <==> exists i :: 0 <= i <= |s| - |p| && s[i..][..|p|] == p
    decreases |s|
  {
    if p <= s {
      assert s[0..][..|p|] == p;
    } else if s != [] {
      ContainsMeans(s[1..], p);
      if i :| 0 <= i <= |s| - |p| && s[i..][..|p|] == p {
        assert s[0..] == s;
        assert s[1..][i - 1..][..|p|] == s[i..][..|p|];
      }
      if i :| 0 <= i <= |s[1..]| - |p| && s[1..][i..][..|p|] == p {
        assert s[i + 1..][..|p|] == s[1..][i..][..|p|];
      }
    }
  }

  /** A temperature report brings a connecting driver online, and changes nothing else but how often to ask again. */
  lemma TemperatureMeans(d: Driver, code: string)
    requires Safe(d) && d.portOpen && ("ok T:" <= code || "T:" <= code)
    ensures Step(d, Received(Classify(code))) ==
            d.(checkConnection := false, state := if d.checkConnection then Idle else d.state,
               interval := if d.state == Printing || d.state == Stopping then 5000 else 1500)
  {
  }

  /** Any other reply that starts with "ok" retires the line in flight of a print and sends the next one, or
      ends the print; without a print it does nothing. */
  lemma ConfirmMeans(d: Driver, code: string)
    requires Safe(d) && d.portOpen && "ok" <= code && !("ok T:" <= code)
    ensures Step(d, Received(Classify(code))) ==
            if d.state != Printing && d.state != Stopping then d
            else if |d.queue| == 1 then d.(queue := [], state := Idle, currentLine := 0)
            else d.(queue := d.queue[1..], wire := d.wire + [d.queue[1]], currentLine := Min(d.currentLine + 1, d.total))
  {
    assert code[0] == 'o' && !("T:" <= code);
    assert Classify(code) == Confirm;
  }

  /** Of the rest, one with "Resend:" and without "start" in it sends the front line again, and it counts once;
      without a line it ends what an online driver was doing. All others do nothing. */
  lemma OtherRepliesMean(d: Driver, code: string)
    requires Safe(d) && d.portOpen && !("ok" <= code) && !("T:" <= code)
    ensures Step(d, Received(Classify(code))) ==
            if Contains(code, "start") || !Contains(code, "Resend:") then d
            else if d.queue != [] then d.(wire := d.wire + [d.queue[0]])
            else if d.state in {Unknown, Disconnected, Connecting} then d.(currentLine := d.currentLine - 1)
            else d.(state := Idle, currentLine := 0)
  {
    hide Contains;
  }

  /** Starting an online driver that has lines and is not printing sends the first one and counts it; one that
      has none stays idle; one that is offline does nothing. */
  lemma StartMeans(d: Driver)
    requires Safe(d) && d.state != Printing && d.state != Stopping
    ensures Step(d, Start) ==
            if d.state in {Unknown, Disconnected, Connecting} then d
            else if d.queue == [] then d.(state := Idle, currentLine := 0)
            else d.(state := Printing, wire := d.wire + [d.queue[0]], currentLine := 1)
  {
  }

  /** Starting with a text replaces the queue first: by its lines, or by nothing if it is rejected. */
  lemma StartWithMeans(d: Driver, lines: seq<string>, accepted: bool)
    requires Safe(d) && d.state != Printing && d.state != Stopping
    ensures var e, queue := Step(d, StartWith(lines, accepted)), if accepted then lines else [];
            && e.queue == queue && e.total == |queue| && e.portOpen == d.portOpen
            && (d.state in {Unknown, Disconnected, Connecting} ==> e.state == d.state && e.wire == d.wire && e.currentLine == 0)
            && (d.state in {Idle, Buffering} && queue == [] ==> e.state == Idle && e.wire == d.wire && e.currentLine == 0)
            && (d.state in {Idle, Buffering} && queue != [] ==>
                  e.state == Printing && e.wire == d.wire + [queue[0]] && e.currentLine == 1)
  {
    assert [] + lines == lines;
  }

  /** Stopping replaces the queue by the end code in every state, and prints it if the driver is online. */
  lemma StopMeans(d: Driver, lines: seq<string>, accepted: bool)
    requires Safe(d)
    ensures var e, queue := Step(d, Stop(lines, accepted)), if accepted then lines else [];
            && e.queue == queue && e.total == |queue| && e.portOpen == d.portOpen
            && (d.state in {Unknown, Disconnected, Connecting} ==> e.state == d.state && e.wire == d.wire && e.currentLine == 0)
            && (d.state in {Idle, Buffering, Printing, Stopping} && queue == [] ==>
                  e.state == Idle && e.wire == d.wire && e.currentLine == 0)
            && (d.state in {Idle, Buffering, Printing, Stopping} && queue != [] ==>
                  e.state == Stopping && e.wire == d.wire + [queue[0]] && e.currentLine == 1)
  {
    assert [] + lines == lines;
  }

  /** Clearing drops all lines and ends what was going on; nothing is sent. */
  lemma ClearMeans(d: Driver)
    ensures Step(d, Clear) ==
            d.(queue := [], total := 0, currentLine := 0,
               state := if d.state in {Buffering, Printing, Stopping} then Idle else d.state)
  {
  }

  /** Appended lines go to the end of the queue, and an idle driver is buffering then; a print goes on. */
  lemma AppendMeans(d: Driver, lines: seq<string>)
    ensures Step(d, Append(lines)) ==
            d.(queue := d.queue + lines, total := d.total + |lines|, state := if d.state == Idle then Buffering else d.state)
  {
  }

  /** A driver that is disconnected keeps its lines, and is offline whatever it was doing. */
  lemma ConnectionMeans(d: Driver, speedSet: bool)
    ensures Step(d, Connect(speedSet)) == d.(portOpen := true, state := if speedSet then Connecting else d.state)
    ensures Step(d, Disconnect) == d.(portOpen := false, state := Disconnected)
  {
  }

  // --------------------------------------------------------------- coming online

  /** Reply lines as events. */
  function Heard(codes: seq<string>): (es: seq<Event>)
    ensures |es| == |codes|
    ensures forall j :: 0 <= j < |codes| ==> es[j] == Received(Classify(codes[j]))
  {
    if codes == [] then [] else [Received(Classify(codes[0]))] + Heard(codes[1..])
  }

  lemma FirstHeard(d: Driver, codes: seq<string>)
    requires codes != []
    ensures Run(d, Heard(codes)) == Run(Step(d, Received(Classify(codes[0]))), Heard(codes[1..]))
  {
    hide Step, Classify;
    assert Heard(codes)[1..] == Heard(codes[1..]);
  }

  /** A driver whose port is open and that is not printing hears some replies. Lines are left alone, and nothing is
      sent unless there are lines to send again. */
  lemma {:induction false} Listening(d: Driver, codes: seq<string>)
    requires Safe(d) && d.portOpen && (d.state == Idle || (d.state == Connecting && d.checkConnection))
    ensures var e := Run(d, Heard(codes));
            && Safe(e) && e.portOpen && e.queue == d.queue && e.total == d.total
            && e.state == (if d.state == Idle || exists j :: 0 <= j < |codes| && ReportsTemperature(codes[j]) then Idle else Connecting)
            && (d.queue == [] ==> e.wire == d.wire)
    decreases |codes|
  {
    if codes != [] {
      var d' := Step(d, Received(Classify(codes[0])));
      StepIsSafe(d, Received(Classify(codes[0])));
      FirstHeard(d, codes);
      if "ok T:" <= codes[0] || "T:" <= codes[0] {
        TemperatureMeans(d, codes[0]);
      } else if "ok" <= codes[0] {
        ConfirmMeans(d, codes[0]);
      } else {
        OtherRepliesMean(d, codes[0]);
      }
      hide Step, Classify, Run, Contains;
      Listening(d', codes[1..]);
      assert forall j :: 0 <= j < |codes| - 1 ==> codes[1..][j] == codes[j + 1];
      if exists j :: 0 <= j < |codes| && ReportsTemperature(codes[j]) {
        var j :| 0 <= j < |codes| && ReportsTemperature(codes[j]);
        assert j > 0 ==> ReportsTemperature(codes[1..][j - 1]);
      }
    }
  }

  /** A driver that was never online and connects is online exactly if one of the replies starts with "ok T:" or "T:". */
  lemma ComesOnline(d: Driver, codes: seq<string>)
    requires Safe(d) && d.checkConnection
    ensures Run(d, [Connect(true)] + Heard(codes)).state ==
            if exists j :: 0 <= j < |codes| && ("ok T:" <= codes[j] || "T:" <= codes[j]) then Idle else Connecting
  {
    StepIsSafe(d, Connect(true));
    RunAppend(d, [Connect(true)], Heard(codes));
    assert Run(d, [Connect(true)]) == Step(d, Connect(true)) by {
      assert [Connect(true)][1..] == [];
    }
    hide Run, Classify, ReportsTemperature;
    Listening(Step(d, Connect(true)), codes);
    Reported(codes);
  }

  lemma Reported(codes: seq<string>)
    ensures (exists j :: 0 <= j < |codes| && ReportsTemperature(codes[j]))
       <==> exists j :: 0 <= j < |codes| && ("ok T:" <= codes[j] || "T:" <= codes[j])
  {
    if exists j :: 0 <= j < |codes| && ("ok T:" <= codes[j] || "T:" <= codes[j]) {
      var j :| 0 <= j < |codes| && ("ok T:" <= codes[j] || "T:" <= codes[j]);
      assert ReportsTemperature(codes[j]);
    }
  }

  lemma OnlineAndEmpty(codes: seq<string>, j: nat) returns (e: Driver)
    requires j < |codes| && ("ok T:" <= codes[j] || "T:" <= codes[j])
    ensures e == Run(INITIAL, [Connect(true)] + Heard(codes))
    ensures Safe(e) && e.state == Idle && e.queue == [] && e.wire == [] && e.total == 0
  {
    assert ReportsTemperature(codes[j]);
    var d := Step(INITIAL, Connect(true));
    hide Run, Classify, Heard, Step;
    RunAppend(INITIAL, [Connect(true)], Heard(codes));
    RunOne(INITIAL, Connect(true));
    ConnectionMeans(INITIAL, true);
    Listening(d, codes);
    e := Run(d, Heard(codes));
  }

  lemma FirstLineFollows(d: Driver, lines: seq<string>)
    requires Safe(d) && d.state == Idle && d.queue == [] && d.wire == [] && d.total == 0 && lines != []
    ensures var e := Step(Step(d, Append(lines)), Start);
            e.wire == [lines[0]] && e.queue == lines && e.state == Printing && e.currentLine == 1
  {
    StepIsSafe(d, Append(lines));
    AppendMeans(d, lines);
    assert [] + lines == lines;
    hide Step, Safe;
    StartMeans(Step(d, Append(lines)));
  }

  /** From the very start: connecting, a temperature report among any replies, some lines, and the start command
      put exactly the first line on the wire. */
  lemma FirstLineIsSent(codes: seq<string>, j: nat, lines: seq<string>)
    requires j < |codes| && ("ok T:" <= codes[j] || "T:" <= codes[j]) && lines != []
    ensures var e := Run(INITIAL, [Connect(true)] + Heard(codes) + [Append(lines)] + [Start]);
            e.wire == [lines[0]] && e.queue == lines && e.state == Printing && e.currentLine == 1
  {
    hide *;
    var before := [Connect(true)] + Heard(codes);
    var d := OnlineAndEmpty(codes, j);
    RunAppend(INITIAL, before, [Append(lines)]);
    RunAppend(INITIAL, before + [Append(lines)], [Start]);
    RunOne(d, Append(lines));
    RunOne(Step(d, Append(lines)), Start);
    FirstLineFollows(d, lines);
  }
}
