/** What the calls of the command handlers are to a driver. */
module CallEvents {
  import opened Calls
  import opened Common
  import opened GCodeBuffers
  import opened GCodeText
  import opened MarlinSpec
  import opened Metadata

  /** The events of a call; `ok` says whether the buffer accepts its text. */
  function EventOf(call: Call, ok: bool): seq<Event> {
    match call
    case AppendGCode(text, _, _) => if ok then [Append(CleanLines(text, false))] else []
    case ClearGCode => [Clear]
    case StartPrint => [Start]
    case StopPrint(endCode) => [Stop(CleanLines(endCode, false), ok)]
  }

  /** Whether a buffer with this metadata, byte count and limit accepts the text of a call. A stop clears it first. */
  predicate Welcomes(call: Call, md: MetaData, bufferSize: int, maxBufferSize: nat) {
    match call
    case AppendGCode(text, _, meta) => Admission(md, bufferSize, maxBufferSize, |text|, meta) == Ok
    case StopPrint(endCode) => Admission(NO_META, 0, maxBufferSize, |endCode|, None) == Ok
    case _ => true
  }

  /** The driver after at most one call. */
  function Obeyed(d: Driver, calls: seq<Call>, md: MetaData, bufferSize: int, maxBufferSize: nat): Driver {
    if calls == [] then d else Run(d, EventOf(calls[0], Welcomes(calls[0], md, bufferSize, maxBufferSize)))
  }

  /** The driver after one call, by the kind of the call. */
  lemma ObeyedOne(d: Driver, call: Call, md: MetaData, bufferSize: int, maxBufferSize: nat)
    ensures var e, ok := Obeyed(d, [call], md, bufferSize, maxBufferSize), Welcomes(call, md, bufferSize, maxBufferSize);
            && (call.AppendGCode? ==> e == if ok then Step(d, Append(CleanLines(call.text, false))) else d)
            && (call.ClearGCode? ==> e == Step(d, Clear))
            && (call.StartPrint? ==> e == Step(d, Start))
            && (call.StopPrint? ==> e == Step(d, Stop(CleanLines(call.endCode, false), ok)))
  {
    hide Step, CleanLines, Admission;
    var es := EventOf(call, Welcomes(call, md, bufferSize, maxBufferSize));
    if es != [] {
      assert es == [es[0]];
      RunOne(d, es[0]);
    }
  }

  lemma ObeyedNone(d: Driver, md: MetaData, bufferSize: int, maxBufferSize: nat)
    ensures Obeyed(d, [], md, bufferSize, maxBufferSize) == d
  {
  }
}
