/** The Marlin driver as a state machine: its states, the events that reach it, and what every
    run keeps (src/drivers/AbstractDriver.cpp, src/drivers/MarlinDriver.cpp). */
module MarlinSpec {
  import opened Common

  datatype State = Unknown | Disconnected | Connecting | Idle | Buffering | Printing | Stopping

  datatype Reply = Temperature | Confirm | Greeting | Resend | Other

  /** The driver with its queue of printable lines, and everything printNextLine has sent. */
  datatype Driver = Driver(
    state: State,
    portOpen: bool,
    checkConnection: bool,
    interval: int,
    queue: seq<string>,
    currentLine: int,
    total: int,
    wire: seq<string>)

  /** What can happen. Append, StartWith and Stop carry the printable lines of G-code that the
      buffer accepts; a rejected append is no event, since it changes nothing. */
  datatype Event =
    | Connect(speedSet: bool)
    | Disconnect
    | Append(lines: seq<string>)
    | Clear
    | Start
    | StartWith(lines: seq<string>, accepted: bool)
    | Stop(lines: seq<string>, accepted: bool)
    | Received(reply: Reply)

  predicate Contains(s: string, p: string)
    decreases |s|
  {
    p <= s || (s != [] && Contains(s[1..], p))
  }

  /** How a reply line is understood; the tests are made in this order. */
  function Classify(code: string): Reply {
    if "ok T:" <= code || "T:" <= code then Temperature
    else if "ok" <= code then Confirm
    else if Contains(code, "start") then Greeting
    else if Contains(code, "Resend:") then Resend
    else Other
  }

  predicate Online(s: State) {
    s != Unknown && s != Disconnected && s != Connecting
  }

  predicate Active(s: State) {
    s == Printing || s == Stopping
  }

  function Reset(d: Driver): Driver {
    if Online(d.state) then d.(state := Idle, currentLine := Min(0, d.total)) else d
  }

  function PrintNext(d: Driver): Driver {
    if d.queue != [] then
      d.(wire := if d.portOpen then d.wire + [d.queue[0]] else d.wire, currentLine := Min(d.currentLine + 1, d.total))
    else Reset(d)
  }

  function Enqueue(d: Driver, lines: seq<string>): Driver {
    d.(queue := d.queue + lines, total := d.total + |lines|, state := if d.state == Idle then Buffering else d.state)
  }

  function Emptied(d: Driver): Driver {
    d.(queue := [], total := 0, currentLine := 0)
  }

  function Replace(d: Driver, lines: seq<string>, accepted: bool): Driver {
    if accepted then Enqueue(Emptied(d), lines) else Emptied(d)
  }

  /** startPrint(state): an active print is not reset, everything else starts at line 0. */
  function StartPrint(d: Driver, mode: State): Driver {
    if !Online(d.state) then d
    else PrintNext((if Active(d.state) then d else Reset(d)).(state := mode))
  }

  function Retire(d: Driver): Driver {
    if d.queue == [] then d else d.(queue := d.queue[1..])
  }

  function OnReply(d: Driver, r: Reply): Driver {
    match r
    case Temperature =>
      var d' := if d.checkConnection then d.(checkConnection := false, state := Idle) else d;
      d'.(interval := if Active(d'.state) then 5000 else 1500)
    case Confirm => if Active(d.state) then PrintNext(Retire(d)) else d
    case Resend => PrintNext(d.(currentLine := Min(d.currentLine - 1, d.total)))
    case Greeting => d
    case Other => d
  }

  function Step(d: Driver, e: Event): Driver {
    match e
    case Connect(speedSet) => d.(portOpen := true, state := if speedSet then Connecting else d.state)
    case Disconnect => d.(portOpen := false, state := Disconnected)
    case Append(lines) => Enqueue(d, lines)
    case Clear =>
      Emptied(d).(state := if d.state == Buffering || Active(d.state) then Idle else d.state)
    case Start => StartPrint(d, Printing)
    case StartWith(lines, accepted) => StartPrint(Replace(d, lines, accepted), Printing)
    case Stop(lines, accepted) => StartPrint(Replace(Reset(d), lines, accepted), Stopping)
    case Received(r) => if d.portOpen then OnReply(d, r) else d
  }

  function Run(d: Driver, events: seq<Event>): Driver
    decreases |events|
  {
    if events == [] then d else Run(Step(d, events[0]), events[1..])
  }

  lemma {:induction false} RunAppend(d: Driver, a: seq<Event>, b: seq<Event>)
    ensures Run(d, a + b) == Run(Run(d, a), b)
    decreases |a|
  {
    if a == [] {
      assert a + b == b;
    } else {
      assert (a + b)[0] == a[0] && (a + b)[1..] == a[1..] + b;
      RunAppend(Step(d, a[0]), a[1..], b);
    }
  }

  // ------------------------------------------------------------------- safety

  const INITIAL := Driver(Disconnected, false, true, 5000, [], 0, 0, [])

  /** The line in flight is at the front of the queue, and it is the one that was sent last. */
  predicate InFlight(d: Driver) {
    d.queue != [] && d.wire != [] && d.wire[|d.wire| - 1] == d.queue[0]
  }

  /** While printing or stopping there is a line in flight; a driver that is online has an open
      port and has seen a temperature; progress never exceeds the total. */
  predicate Safe(d: Driver) {
    && (Active(d.state) ==> InFlight(d))
    && (Online(d.state) ==> d.portOpen && !d.checkConnection)
    && d.currentLine <= d.total
    && |d.queue| <= d.total
  }

  /** Safety, except that the line in flight may just have been retired or replaced. */
  predicate NearlySafe(d: Driver) {
    && (Online(d.state) ==> d.portOpen && !d.checkConnection)
    && d.currentLine <= d.total
    && |d.queue| <= d.total
  }

  lemma PrintNextIsSafe(d: Driver)
    requires NearlySafe(d)
    ensures Safe(PrintNext(d))
  {
  }

  lemma StartPrintIsSafe(d: Driver, mode: State)
    requires NearlySafe(d) && Active(mode)
    ensures Online(d.state) ==> Safe(StartPrint(d, mode))
    ensures !Online(d.state) ==> StartPrint(d, mode) == d
  {
    if Online(d.state) {
      PrintNextIsSafe((if Active(d.state) then d else Reset(d)).(state := mode));
    }
  }

  lemma ReplaceIsNearlySafe(d: Driver, lines: seq<string>, accepted: bool)
    requires NearlySafe(d)
    ensures NearlySafe(Replace(d, lines, accepted))
    ensures Online(Replace(d, lines, accepted).state) <==> Online(d.state)
  {
  }

  lemma ReplyIsSafe(d: Driver, r: Reply)
    requires Safe(d) && d.portOpen
    ensures Safe(OnReply(d, r))
  {
    hide PrintNext;
    if r == Confirm && Active(d.state) {
      PrintNextIsSafe(Retire(d));
    } else if r == Resend {
      PrintNextIsSafe(d.(currentLine := Min(d.currentLine - 1, d.total)));
    }
  }

  lemma StepIsSafe(d: Driver, e: Event)
    requires Safe(d)
    ensures Safe(Step(d, e))
  {
    hide PrintNext, OnReply, StartPrint, Replace;
    match e
    case Connect(_) =>
    case Disconnect =>
    case Append(_) =>
    case Clear =>
    case Start => StartPrintIsSafe(d, Printing);
    case StartWith(lines, accepted) =>
      ReplaceIsNearlySafe(d, lines, accepted);
      StartPrintIsSafe(Replace(d, lines, accepted), Printing);
    case Stop(lines, accepted) =>
      ReplaceIsNearlySafe(Reset(d), lines, accepted);
      StartPrintIsSafe(Replace(Reset(d), lines, accepted), Stopping);
    case Received(r) =>
      if d.portOpen {
        ReplyIsSafe(d, r);
      }
  }

  /** Every state that any run reaches is safe. */
  lemma {:induction false} EveryRunIsSafe(d: Driver, events: seq<Event>)
    requires Safe(d)
    ensures Safe(Run(d, events))
    decreases |events|
  {
    if events != [] {
      StepIsSafe(d, events[0]);
      EveryRunIsSafe(Step(d, events[0]), events[1..]);
    }
  }

  /** So in every run a confirmation that arrives while printing retires a line that is really there:
      the front line, which is the one that was sent last. */
  lemma ConfirmRetiresARealLine(events: seq<Event>, d: Driver)
    requires d == Run(INITIAL, events) && Active(d.state)
    ensures d.queue != [] && d.portOpen
    ensures d.wire != [] && d.wire[|d.wire| - 1] == d.queue[0]
    ensures OnReply(d, Confirm).queue == d.queue[1..]
    ensures Active(OnReply(d, Confirm).state) <==> |d.queue| > 1
  {
    EveryRunIsSafe(INITIAL, events);
  }

  /** Replacing the G-code of an active print without restarting it is safe exactly if it is accepted and
      starts with the line in flight; otherwise the next confirmation retires a line that was never sent, or none. */
  lemma ReplaceAlone(d: Driver, lines: seq<string>, accepted: bool)
    requires Safe(d) && Active(d.state)
    ensures Safe(Replace(d, lines, accepted)) <==> accepted && lines != [] && lines[0] == d.queue[0]
  {
  }

  // ---------------------------------------------------------------- print runs

  /** The events of an undisturbed print. */
  predicate PrintEvent(e: Event) {
    e.Append? || e.Received?
  }

  /** A run in which the queue never empties: with `left` unretired lines, a confirmation is
      followed by another line. */
  predicate Live(left: nat, events: seq<Event>)
    decreases |events|
  {
    left > 0 && (events == [] ||
                 match events[0]
                 case Received(r) => if r == Confirm then Live(left - 1, events[1..]) else Live(left, events[1..])
                 case Append(lines) => Live(left + |lines|, events[1..])
                 case _ => false)
  }

  function Confirmed(events: seq<Event>): nat
    decreases |events|
  {
    if events == [] then 0 else (if events[0] == Received(Confirm) then 1 else 0) + Confirmed(events[1..])
  }

  function Added(events: seq<Event>): seq<string>
    decreases |events|
  {
    if events == [] then [] else (if events[0].Append? then events[0].lines else []) + Added(events[1..])
  }

  /** Which line of the job each sending event sends, when k lines are retired already. */
  function SendIndices(events: seq<Event>, k: nat): seq<nat>
    decreases |events|
  {
    if events == [] then []
    else if events[0] == Received(Confirm) then [k + 1] + SendIndices(events[1..], k + 1)
    else if events[0] == Received(Resend) then [k] + SendIndices(events[1..], k)
    else SendIndices(events[1..], k)
  }

  function Pick(job: seq<string>, indices: seq<nat>): (ls: seq<string>)
    ensures |ls| == |indices|
  {
    seq(|indices|, i requires 0 <= i < |indices| => if indices[i] < |job| then job[indices[i]] else "")
  }

  /** In the middle of a job: k lines are retired and line k, counted from 0, is in flight. */
  predicate Mid(d: Driver, mode: State, job: seq<string>, k: nat) {
    && Active(mode) && d.state == mode && d.portOpen && !d.checkConnection
    && k < |job| && d.queue == job[k..]
    && d.currentLine == k + 1 && |job| <= d.total
  }

  lemma MidStep(d: Driver, mode: State, job: seq<string>, k: nat, e: Event)
    requires Mid(d, mode, job, k) && PrintEvent(e)
    requires e == Received(Confirm) ==> k + 1 < |job|
    ensures var job' := job + if e.Append? then e.lines else [];
            var k' := k + if e == Received(Confirm) then 1 else 0;
            && Mid(Step(d, e), mode, job', k')
            && Step(d, e).wire == d.wire + if e == Received(Confirm) || e == Received(Resend) then [job'[k']] else []
  {
    if e.Append? {
      assert (job + e.lines)[k..] == job[k..] + e.lines;
    } else {
      assert job + [] == job;
    }
  }

  lemma PickFirst(job: seq<string>, i: nat, indices: seq<nat>)
    requires i < |job|
    ensures Pick(job, [i] + indices) == [job[i]] + Pick(job, indices)
  {
  }

  lemma AddedFirst(job: seq<string>, e: Event, rest: seq<Event>, now: seq<string>)
    requires now == if e.Append? then e.lines else []
    ensures ([e] + rest)[1..] == rest
    ensures job + now + Added(rest) == job + Added([e] + rest)
  {
    assert ([e] + rest)[1..] == rest;
  }

  lemma Sent(wire: seq<string>, job: seq<string>, more: seq<string>, i: nat, indices: seq<nat>)
    requires i < |job|
    ensures wire + [job[i]] + Pick(job + more, indices) == wire + Pick(job + more, [i] + indices)
  {
    PickFirst(job + more, i, indices);
  }

  /** The heart of a print run, from any point of it on. */
  lemma {:induction false} JobContinues(d: Driver, mode: State, job: seq<string>, k: nat, events: seq<Event>)
    requires Mid(d, mode, job, k) && Live(|job| - k, events)
    ensures Mid(Run(d, events), mode, job + Added(events), k + Confirmed(events))
    ensures Run(d, events).wire == d.wire + Pick(job + Added(events), SendIndices(events, k))
    decreases |events|
  {
    hide Mid, Step, Added, Pick;
    if events == [] {
      NothingAdded(d, job);
    } else {
      var e, rest := events[0], events[1..];
      var now := if e.Append? then e.lines else [];
      var k' := k + if e == Received(Confirm) then 1 else 0;
      JobIsMid(d, mode, job, k);
      MidStep(d, mode, job, k, e);
      JobContinues(Step(d, e), mode, job + now, k', rest);
      assert events == [e] + rest;
      AddedFirst(job, e, rest, now);
      JobIsMid(Step(d, e), mode, job + now, k');
      Sent(d.wire, job + now, Added(rest), k', SendIndices(rest, k'));
    }
  }

  lemma JobIsMid(d: Driver, mode: State, job: seq<string>, k: nat)
    requires Mid(d, mode, job, k)
    ensures k < |job| && |d.queue| == |job| - k
  {
  }

  lemma NothingAdded(d: Driver, job: seq<string>)
    ensures job + Added([]) == job && d.wire + Pick(job, []) == d.wire
  {
  }

  /** A print run from idle or buffering: with any mix of confirmations, resends, temperature and other
      replies and appends that leaves lines in the queue, the i-th confirmation retires the i-th line and
      sends the next, a resend sends the unretired front line again, nothing else is sent, and
      currentLine is the number of distinct lines sent, unclamped. */
  lemma PrintRun(d: Driver, events: seq<Event>)
    requires Safe(d) && (d.state == Idle || d.state == Buffering)
    requires Live(|d.queue|, events)
    ensures Printed(d.wire, Run(d, [Start] + events), Printing, d.queue, events)
  {
    LiveMeans(|d.queue|, events);
    StartsPrinting(d);
    hide *;
    RunAppend(d, [Start], events);
    RunOne(d, Start);
    JobStarts(d.wire, Step(d, Start), Printing, d.queue, events);
  }

  lemma LiveMeans(left: nat, events: seq<Event>)
    requires Live(left, events)
    ensures left > 0
  {
  }

  lemma RunOne(d: Driver, e: Event)
    ensures Run(d, [e]) == Step(d, e)
  {
    hide Step;
    assert [e][1..] == [];
  }

  lemma StartsPrinting(d: Driver)
    requires Safe(d) && (d.state == Idle || d.state == Buffering) && d.queue != []
    ensures Mid(Step(d, Start), Printing, d.queue, 0)
    ensures Step(d, Start).wire == d.wire + [d.queue[0]]
  {
  }

  lemma StartsStopping(d: Driver, lines: seq<string>)
    requires Safe(d) && Online(d.state) && lines != []
    ensures Mid(Step(d, Stop(lines, true)), Stopping, lines, 0)
    ensures Step(d, Stop(lines, true)).wire == d.wire + [lines[0]]
  {
    assert [] + lines == lines;
  }

  /** Stopping prints the end code the same way. */
  lemma StopRun(d: Driver, lines: seq<string>, events: seq<Event>)
    requires Safe(d) && Online(d.state)
    requires Live(|lines|, events)
    ensures Printed(d.wire, Run(d, [Stop(lines, true)] + events), Stopping, lines, events)
  {
    LiveMeans(|lines|, events);
    StartsStopping(d, lines);
    hide *;
    RunAppend(d, [Stop(lines, true)], events);
    RunOne(d, Stop(lines, true));
    JobStarts(d.wire, Step(d, Stop(lines, true)), Stopping, lines, events);
  }

  /** What a run of events has done to a job whose first line was sent when `wire` had been sent before. */
  predicate Printed(wire: seq<string>, d: Driver, mode: State, first: seq<string>, events: seq<Event>) {
    var job, k := first + Added(events), Confirmed(events);
    && d.state == mode
    && k < |job| && d.queue == job[k..]
    && d.currentLine == k + 1 <= d.total
    && d.wire == wire + Pick(job, [0] + SendIndices(events, 0))
  }

  lemma JobStarts(wire: seq<string>, d: Driver, mode: State, job: seq<string>, events: seq<Event>)
    requires Mid(d, mode, job, 0) && Live(|job|, events)
    requires d.wire == wire + [job[0]]
    ensures Printed(wire, Run(d, events), mode, job, events)
  {
    hide Added, Pick, SendIndices, Live, Run, Confirmed;
    JobContinues(d, mode, job, 0, events);
    Sent(wire, job, Added(events), 0, SendIndices(events, 0));
  }

  /** The confirmation of the last line ends the run: idle, queue empty, nothing more sent. */
  lemma RunEnds(d: Driver, mode: State, job: seq<string>, k: nat)
    requires Mid(d, mode, job, k) && k + 1 == |job|
    ensures Step(d, Received(Confirm)) == d.(state := Idle, queue := [], currentLine := 0)
  {
  }

  /** Lines are sent in order from the first one on: each send repeats the line before or is the next,
      and the last one sent is the one in flight. */
  lemma {:induction false} SendsAreInOrder(events: seq<Event>, k: nat, i: nat)
    requires i <= |SendIndices(events, k)|
    ensures var sends := [k] + SendIndices(events, k);
            && (i > 0 ==> sends[i] == sends[i - 1] || sends[i] == sends[i - 1] + 1)
            && sends[|sends| - 1] == k + Confirmed(events)
    decreases |events|
  {
    if events != [] {
      var e := events[0];
      var k' := if e == Received(Confirm) then k + 1 else k;
      var sent := e == Received(Confirm) || e == Received(Resend);
      SendsAreInOrder(events[1..], k', if sent && i > 0 then i - 1 else if sent then 0 else i);
    }
  }

  /** Without resends every line is sent exactly once. */
  lemma {:induction false} NoResends(events: seq<Event>, k: nat)
    requires forall i :: 0 <= i < |events| ==> events[i] != Received(Resend)
    ensures |SendIndices(events, k)| == Confirmed(events)
    ensures forall i :: 0 <= i < |SendIndices(events, k)| ==> SendIndices(events, k)[i] == k + 1 + i
    decreases |events|
  {
    if events != [] {
      NoResends(events[1..], if events[0] == Received(Confirm) then k + 1 else k);
    }
  }

  /** Why a re-issued start is no print event: it sends the line in flight again and still counts it. */
  lemma StartAgain(d: Driver, job: seq<string>, k: nat)
    requires Mid(d, Printing, job, k)
    ensures Step(d, Start) == d.(wire := d.wire + [job[k]], currentLine := Min(k + 2, d.total))
    ensures Mid(Step(d, Start), Printing, job, k) <==> k + 1 == d.total
  {
  }
}
