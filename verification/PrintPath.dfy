/** From the socket to the printer: what a client's texts become on the printer's serial line, once they have
    been cut, encoded, fragmented, reassembled, collected, cleaned, queued and confirmed line by line. */
module PrintPath {
  import opened CallEvents
  import opened Calls
  import opened Common
  import opened EndToEnd
  import opened GCodeBuffers
  import opened GCodeText
  import opened Ipc
  import opened Marlin
  import opened MarlinSpec
  import opened Metadata
  import T = Transactions

  // ------------------------------------------------------- calls, and the driver

  /** The events of a list of calls, given the verdicts of the buffer. */
  function EventsOf(calls: seq<Call>, oks: seq<bool>): seq<Event>
    requires |oks| == |calls|
  {
    if calls == [] then [] else
      var n := |calls| - 1;
      EventsOf(calls[..n], oks[..n]) + EventOf(calls[n], oks[n])
  }

  lemma LastEvent(calls: seq<Call>, oks: seq<bool>, call: Call, ok: bool)
    requires |oks| == |calls|
    ensures EventsOf(calls + [call], oks + [ok]) == EventsOf(calls, oks) + EventOf(call, ok)
  {
    hide EventOf;
    assert (calls + [call])[..|calls|] == calls && (oks + [ok])[..|oks|] == oks;
  }

  /** Every text is accepted by a buffer whose metadata is `md` and whose byte count is at most `size`. */
  predicate Welcome(md: MetaData, size: int, maxBufferSize: nat, calls: seq<Call>)
    decreases |calls|
  {
    calls == [] ||
    (&& calls[0].AppendGCode?
     && Admission(md, size, maxBufferSize, |calls[0].text|, calls[0].meta) == Ok
     && Welcome(NextMetaData(md, calls[0].meta), size + |calls[0].text| + 1, maxBufferSize, calls[1..]))
  }

  lemma {:induction false} SmallerIsWelcome(md: MetaData, size: int, smaller: int, maxBufferSize: nat, calls: seq<Call>)
    requires Welcome(md, size, maxBufferSize, calls) && smaller <= size
    ensures Welcome(md, smaller, maxBufferSize, calls)
    decreases |calls|
  {
    if calls != [] {
      SanityMeaning(md, size, calls[0].meta);
      SanityMeaning(md, smaller, calls[0].meta);
      SmallerIsWelcome(NextMetaData(md, calls[0].meta), size + |calls[0].text| + 1, smaller + |calls[0].text| + 1, maxBufferSize, calls[1..]);
    }
  }

  /** Makes the calls one after the other. The driver goes through the events they stand for, and its buffer
      accepts every text that is welcome. */
  method ServeCalls(driver: MarlinDriver, calls: seq<Call>) returns (oks: seq<bool>)
    requires driver.Valid()
    modifies driver`state, driver`wire, driver`calls, driver.gcodeBuffer
    ensures driver.Valid() && driver.calls == old(driver.calls) + calls
    ensures |oks| == |calls| && driver.View() == Run(old(driver.View()), EventsOf(calls, oks))
    ensures Welcome(old(driver.gcodeBuffer.md), old(driver.gcodeBuffer.bufferSize), driver.gcodeBuffer.maxBufferSize, calls) ==>
              forall j :: 0 <= j < |oks| ==> oks[j]
  {
    hide CleanLines, Step, Run, EventsOf, Welcome, Admission, NextMetaData, MarlinDriver.Valid, MarlinDriver.View;
    oks := [];
    ghost var max := driver.gcodeBuffer.maxBufferSize;
    ghost var welcome := Welcome(driver.gcodeBuffer.md, driver.gcodeBuffer.bufferSize, max, calls);
    ghost var start := driver.View();
    NoEvents(start);
    assert calls[0..] == calls;
    for j := 0 to |calls|
      invariant driver.Valid() && |oks| == j
      invariant driver.calls == old(driver.calls) + calls[..j]
      invariant driver.View() == Run(start, EventsOf(calls[..j], oks))
      invariant welcome ==> Welcome(driver.gcodeBuffer.md, driver.gcodeBuffer.bufferSize, max, calls[j..])
      invariant welcome ==> forall i :: 0 <= i < j ==> oks[i]
    {
      ghost var d, size := driver.View(), driver.gcodeBuffer.bufferSize;
      if welcome {
        FirstIsWelcome(driver.gcodeBuffer.md, driver.gcodeBuffer.bufferSize, max, calls[j..]);
      }
      var ok := true;
      match calls[j] {
        case AppendGCode(text, totalLines, meta) =>
          var result := driver.AppendGCode(text, totalLines, meta);
          ok := result == Ok;
          if welcome {
            SmallerIsWelcome(driver.gcodeBuffer.md, size + |text| + 1, driver.gcodeBuffer.bufferSize, max, calls[j..][1..]);
          }
        case ClearGCode => driver.ClearGCode();
        case StartPrint => var _ := driver.StartPrint();
        case StopPrint(endCode) =>
          var _ := driver.StopPrint(endCode);
          ok := Admission(NO_META, 0, driver.gcodeBuffer.maxBufferSize, |endCode|, None) == Ok;
      }
      OneEvent(d, calls[j], ok);
      LastEvent(calls[..j], oks, calls[j], ok);
      RunAppend(start, EventsOf(calls[..j], oks), EventOf(calls[j], ok));
      assert calls[..j + 1] == calls[..j] + [calls[j]];
      assert calls[j..][1..] == calls[j + 1..];
      oks := oks + [ok];
    }
    assert calls[..|calls|] == calls;
  }

  lemma NoEvents(d: Driver)
    ensures Run(d, EventsOf([], [])) == d
  {
  }

  lemma OneEvent(d: Driver, call: Call, ok: bool)
    ensures EventOf(call, ok) == [] ==> Run(d, EventOf(call, ok)) == d
    ensures EventOf(call, ok) != [] ==> Run(d, EventOf(call, ok)) == Step(d, EventOf(call, ok)[0])
  {
    hide Step;
  }

  lemma FirstIsWelcome(md: MetaData, size: int, maxBufferSize: nat, calls: seq<Call>)
    requires Welcome(md, size, maxBufferSize, calls) && calls != []
    ensures calls[0].AppendGCode?
    ensures Admission(md, size, maxBufferSize, |calls[0].text|, calls[0].meta) == Ok
    ensures Welcome(NextMetaData(md, calls[0].meta), size + |calls[0].text| + 1, maxBufferSize, calls[1..])
  {
  }

  // ---------------------------------------------------------- who is let in

  /** Texts with metadata: all numbered 0, 1, 2, ... or none, all of one source, and with one total, if any,
      that is above every number but perhaps the first. */
  predicate Uniform(calls: seq<Call>) {
    && (forall j :: 0 <= j < |calls| ==> calls[j].AppendGCode? && calls[j].meta.Some?)
    && ((forall j :: 0 <= j < |calls| ==> calls[j].meta.value.seqNumber == j)
        || (forall j :: 0 <= j < |calls| ==> calls[j].meta.value.seqNumber < 0))
    && (forall j :: 0 < j < |calls| ==>
          && calls[j].meta.value.seqTotal == calls[0].meta.value.seqTotal
          && calls[j].meta.value.source == calls[0].meta.value.source
          && (calls[0].meta.value.seqTotal >= 0 ==> calls[j].meta.value.seqNumber < calls[0].meta.value.seqTotal))
  }

  /** The bytes of texts, each with a newline. */
  function TotalBytes(calls: seq<Call>): nat {
    if calls == [] then 0 else (if calls[0].AppendGCode? then |calls[0].text| + 1 else 0) + TotalBytes(calls[1..])
  }

  /** The metadata of the buffer after j uniform texts. */
  predicate MetaAfter(md: MetaData, size: int, calls: seq<Call>, j: nat)
    requires j <= |calls| && Uniform(calls)
  {
    if j == 0 then md == NO_META && size == 0
    else md == MetaData(calls[j - 1].meta.value.seqNumber, calls[0].meta.value.seqTotal, calls[0].meta.value.source)
  }

  lemma {:induction false} RestIsWelcome(md: MetaData, size: int, maxBufferSize: nat, calls: seq<Call>, j: nat)
    requires Uniform(calls) && j <= |calls| && MetaAfter(md, size, calls, j)
    requires maxBufferSize > 0 ==> size + TotalBytes(calls[j..]) <= maxBufferSize
    ensures Welcome(md, size, maxBufferSize, calls[j..])
    decreases |calls| - j
  {
    if j < |calls| {
      var rest, c := calls[j..], calls[j];
      assert rest[0] == c && rest[1..] == calls[j + 1..];
      SanityMeaning(md, size, c.meta);
      RestIsWelcome(NextMetaData(md, c.meta), size + |c.text| + 1, maxBufferSize, calls, j + 1);
    }
  }

  /** A cleared buffer with room for all of them accepts uniform texts. */
  lemma UniformTextsAreWelcome(maxBufferSize: nat, calls: seq<Call>)
    requires Uniform(calls) && (maxBufferSize > 0 ==> TotalBytes(calls) <= maxBufferSize)
    ensures Welcome(NO_META, 0, maxBufferSize, calls)
  {
    assert calls[0..] == calls;
    RestIsWelcome(NO_META, 0, maxBufferSize, calls, 0);
  }

  // ------------------------------------------------------------------ the queue

  predicate AllTexts(calls: seq<Call>) {
    forall j :: 0 <= j < |calls| ==> calls[j].AppendGCode?
  }

  /** The printable lines of the accepted texts, in order. */
  function Printable(calls: seq<Call>, oks: seq<bool>): seq<string>
    requires |oks| == |calls|
  {
    if calls == [] then [] else
      var n := |calls| - 1;
      Printable(calls[..n], oks[..n]) + if calls[n].AppendGCode? && oks[n] then CleanLines(calls[n].text, false) else []
  }

  /** A driver that has lines added to its queue, and is the same in everything else. */
  predicate Extended(d: Driver, e: Driver, lines: seq<string>) {
    && e == d.(queue := d.queue + lines, total := d.total + |lines|, state := e.state)
    && (e.state == d.state || (d.state == Idle && e.state == Buffering))
  }

  lemma OneText(d: Driver, e: Driver, lines: seq<string>, call: Call, ok: bool, more: seq<string>)
    requires Extended(d, e, lines) && call.AppendGCode? && more == if ok then CleanLines(call.text, false) else []
    ensures Extended(d, Run(e, EventOf(call, ok)), lines + more)
  {
    hide CleanLines;
    OneEvent(e, call, ok);
    assert d.queue + lines + more == d.queue + (lines + more);
  }

  lemma LastText(calls: seq<Call>, oks: seq<bool>, n: nat)
    requires |oks| == |calls| == n + 1 && AllTexts(calls)
    ensures AllTexts(calls[..n]) && calls[n].AppendGCode?
    ensures EventsOf(calls, oks) == EventsOf(calls[..n], oks[..n]) + EventOf(calls[n], oks[n])
    ensures Printable(calls, oks) == Printable(calls[..n], oks[..n]) + if oks[n] then CleanLines(calls[n].text, false) else []
  {
    hide CleanLines, EventOf;
  }

  lemma NoTexts(d: Driver)
    ensures Extended(d, Run(d, EventsOf([], [])), Printable([], []))
  {
    assert d.queue + [] == d.queue;
  }

  /** Texts fill the queue with the printable lines of those that are accepted. */
  lemma {:induction false} TextsFillTheQueue(d: Driver, calls: seq<Call>, oks: seq<bool>)
    requires |oks| == |calls| && AllTexts(calls)
    ensures Extended(d, Run(d, EventsOf(calls, oks)), Printable(calls, oks))
    decreases |calls|
  {
    hide *;
    if calls == [] {
      NoTexts(d);
      assert oks == [];
    } else {
      var n := |calls| - 1;
      LastText(calls, oks, n);
      TextsFillTheQueue(d, calls[..n], oks[..n]);
      RunAppend(d, EventsOf(calls[..n], oks[..n]), EventOf(calls[n], oks[n]));
      OneText(d, Run(d, EventsOf(calls[..n], oks[..n])), Printable(calls[..n], oks[..n]), calls[n], oks[n],
              if oks[n] then CleanLines(calls[n].text, false) else []);
    }
  }

  // ------------------------------------------------------------------- the print

  /** A sequence without immediate repetitions. */
  function Distinct(xs: seq<nat>): seq<nat> {
    if |xs| <= 1 then xs else if xs[0] == xs[1] then Distinct(xs[1..]) else [xs[0]] + Distinct(xs[1..])
  }

  function UpTo(k: nat, n: nat): (xs: seq<nat>)
    ensures |xs| == n
  {
    seq(n, i requires 0 <= i < n => k + i)
  }

  /** Repeats aside, lines are sent one by one, none left out and none twice. */
  lemma {:induction false} EveryIndexOnce(events: seq<Event>, k: nat)
    ensures Distinct([k] + SendIndices(events, k)) == UpTo(k, Confirmed(events) + 1)
    decreases |events|
  {
    if events != [] {
      var e, rest := events[0], events[1..];
      var k' := if e == Received(Confirm) then k + 1 else k;
      EveryIndexOnce(rest, k');
      assert ([k] + ([k'] + SendIndices(rest, k')))[1..] == [k'] + SendIndices(rest, k');
      assert [k] + UpTo(k + 1, Confirmed(rest) + 1) == UpTo(k, Confirmed(rest) + 2);
    }
  }

  /** A print that is confirmed to its end, with any resends, other replies and appends in between, sends the
      lines of the job in order, each again for every resend while it is in flight, and ends idle. */
  lemma EveryLineIsPrinted(d: Driver, events: seq<Event>)
    requires Safe(d) && (d.state == Idle || d.state == Buffering)
    requires Live(|d.queue|, events) && Confirmed(events) + 1 == |d.queue + Added(events)|
    ensures AllPrinted(d, Step(Run(d, [Start] + events), Received(Confirm)), events)
  {
    PrintRun(d, events);
    EveryRunIsSafe(d, [Start] + events);
    EveryIndexOnce(events, 0);
    hide Run, Live, SendIndices, Added, Confirmed, Distinct;
  }

  /** At the end of a print the serial line has carried the whole job in order, and the driver is idle. */
  predicate AllPrinted(d: Driver, end: Driver, events: seq<Event>) {
    var job, indices := d.queue + Added(events), [0] + SendIndices(events, 0);
    && end.wire == d.wire + Pick(job, indices)
    && Distinct(indices) == UpTo(0, |job|)
    && end.state == Idle && end.queue == []
  }

  // ------------------------------------------------------------------ the server

  function Untag(calls: seq<(nat, Call)>): (cs: seq<Call>)
    ensures |cs| == |calls|
  {
    seq(|calls|, j requires 0 <= j < |calls| => calls[j].1)
  }

  predicate AllFrom(calls: seq<(nat, Call)>, i: nat) {
    forall j :: 0 <= j < |calls| ==> calls[j].0 == i
  }

  predicate FromClients(calls: seq<(nat, Call)>, n: nat) {
    forall j :: 0 <= j < |calls| ==> calls[j].0 < n
  }

  /** No other client runs a command that reaches the driver. */
  predicate OthersAreQuiet(s: T.Server, arrivals: seq<T.Arrival>, i: nat, files: T.Files)
    requires T.AllFit(s, arrivals)
  {
    forall c :: 0 <= c < |s.pending| && c != i ==> T.OwnCalls(s.trx[c], s.pending[c], T.ReadsOf(arrivals, c), files) == []
  }

  lemma {:induction false} OnlyIsAll(calls: seq<(nat, Call)>, i: nat)
    requires AllFrom(calls, i)
    ensures T.Only(calls, i) == Untag(calls)
    decreases |calls|
  {
    if calls != [] {
      OnlyIsAll(calls[1..], i);
      assert Untag(calls) == [calls[0].1] + Untag(calls[1..]);
    }
  }

  lemma {:induction false} NoneFrom(calls: seq<(nat, Call)>, c: nat, j: nat)
    requires T.Only(calls, c) == [] && j < |calls|
    ensures calls[j].0 != c
    decreases |calls|
  {
    if j > 0 {
      NoneFrom(calls[1..], c, j - 1);
    }
  }

  lemma {:induction false} CallersAreClients(s: T.Server, arrivals: seq<T.Arrival>, files: T.Files)
    requires T.AllFit(s, arrivals) && FromClients(s.calls, |s.pending|)
    ensures FromClients(T.ArriveAll(s, arrivals, files).calls, |s.pending|)
    decreases |arrivals|
  {
    hide T.DecodeAll, T.AfterAll, T.EffectsAll;
    if arrivals != [] {
      CallersAreClients(T.Arrive(s, arrivals[0], files), arrivals[1..], files);
    }
  }

  /** When all other clients are quiet, every call is this client's. */
  lemma CallsAreOwn(s: T.Server, arrivals: seq<T.Arrival>, i: nat, files: T.Files)
    requires T.AllFit(s, arrivals) && s.calls == [] && OthersAreQuiet(s, arrivals, i, files)
    ensures AllFrom(T.ArriveAll(s, arrivals, files).calls, i)
  {
    hide T.ArriveAll, T.OwnCalls, T.ReadsOf;
    var calls := T.ArriveAll(s, arrivals, files).calls;
    CallersAreClients(s, arrivals, files);
    forall j | 0 <= j < |calls|
      ensures calls[j].0 == i
    {
      var c := calls[j].0;
      if c != i {
        T.ClientsAreIsolated(s, arrivals, c, files);
        assert T.Only(calls, c) == [];
        NoneFrom(calls, c, j);
        assert false;
      }
    }
  }

  /** The whole path. A client sends texts, some to their end and some not; its bytes arrive in any fragments;
      other clients send what they like, but nothing that reaches the driver; `oks` says which texts the buffer
      accepts; the print is started and confirmed to its end, with any resends, other replies and appends in
      between. Then the serial line has carried exactly the printable lines of the accepted texts that were sent
      to their end, followed by those appended, in order, each repeated only on request, and the driver is idle. */
  lemma SocketToPrinter(s: T.Server, arrivals: seq<T.Arrival>, i: nat, xs: seq<Sending>, rest: Bytes, files: T.Files,
                        d: Driver, oks: seq<bool>, events: seq<Event>)
    requires T.AllFit(s, arrivals) && NewClient(s, i) && s.calls == [] && OthersAreQuiet(s, arrivals, i, files)
    requires Carry(T.ReadsOf(arrivals, i), xs, rest)
    requires Safe(d) && (d.state == Idle || d.state == Buffering) && d.queue == []
    requires |oks| == |FinishedCalls(xs)|
    requires Live(|Printable(FinishedCalls(xs), oks)|, events)
    requires Confirmed(events) + 1 == |Printable(FinishedCalls(xs), oks) + Added(events)|
    ensures var calls := Untag(T.ArriveAll(s, arrivals, files).calls);
            && |calls| == |oks|
            && var filled := Run(d, EventsOf(calls, oks));
            && filled.wire == d.wire && filled.queue == Printable(FinishedCalls(xs), oks)
            && AllPrinted(filled, Step(Run(filled, [Start] + events), Received(Confirm)), events)
  {
    var calls := T.ArriveAll(s, arrivals, files).calls;
    var filled := Run(d, EventsOf(FinishedCalls(xs), oks));
    assert d.queue + Printable(FinishedCalls(xs), oks) == Printable(FinishedCalls(xs), oks);
    FilledIsReady(d, filled, Printable(FinishedCalls(xs), oks));
    hide *;
    TextsArriveIntact(s, arrivals, i, xs, rest, files);
    CallsAreOwn(s, arrivals, i, files);
    OnlyIsAll(calls, i);
    FinishedAreTexts(xs);
    TextsFillTheQueue(d, FinishedCalls(xs), oks);
    EveryLineIsPrinted(filled, events);
  }

  lemma {:induction false} FinishedAreTexts(xs: seq<Sending>)
    ensures AllTexts(FinishedCalls(xs))
  {
    hide Finished;
    if xs != [] {
      FinishedAreTexts(xs[..|xs| - 1]);
    }
  }

  lemma FilledIsReady(d: Driver, f: Driver, lines: seq<string>)
    requires Safe(d) && (d.state == Idle || d.state == Buffering) && d.queue == []
    ensures Extended(d, f, lines) ==> Safe(f) && (f.state == Idle || f.state == Buffering) && f.queue == lines && f.wire == d.wire
  {
    assert [] + lines == lines;
  }
}
