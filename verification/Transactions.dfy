/** G-code transactions of many clients (src/server/CommandHandler.cpp): what each command does to
    the transaction of its client and to the driver, and what reaches the driver when the bytes of
    any number of clients arrive in any order. */
module Transactions {
  import opened Calls
  import opened CommandStream
  import opened Common
  import opened Ipc
  import opened Metadata
  import opened Strings

  const GCODE_CLEAR := 0x12
  const GCODE_APPEND := 0x13
  const GCODE_APPEND_FILE := 0x14
  const GCODE_STARTPRINT := 0x15
  const GCODE_STOPPRINT := 0x16

  const FIRST_CHUNK_BIT := 1
  const LAST_CHUNK_BIT := 2

  /** Contents of the files a server can read; the file system itself is not modelled. */
  type Files = string -> Option<string>

  datatype Transaction = Transaction(buffer: string, active: bool)

  const NO_TRANSACTION := Transaction("", false)

  datatype Request = Request(data: string, first: bool, last: bool, totalLines: int, meta: MetaData)

  /** The number arguments of an append are long enough to be read. */
  predicate WellTyped(args: seq<Bytes>) {
    && (|args| >= 2 ==> |args[1]| >= 2)
    && (forall i :: 2 <= i < |args| && i < 5 ==> |args[i]| >= 4)
  }

  function Flags(args: seq<Bytes>): nat
    requires WellTyped(args)
  {
    if |args| >= 2 then ReadShort(args[1], 0) else FIRST_CHUNK_BIT + LAST_CHUNK_BIT
  }

  function LongArg(args: seq<Bytes>, i: nat): int
    requires WellTyped(args) && 2 <= i < 5
  {
    if i < |args| then ToInt32(ReadLong(args[i], 0)) else -1
  }

  /** How the arguments of an append are read: text up to its first NUL, flags, and numbers that default to -1. */
  function ReadRequest(args: seq<Bytes>): Request
    requires args != [] && WellTyped(args)
  {
    Request(UpToNul(args[0]), Flags(args) % 2 == 1, Flags(args) / 2 % 2 == 1, LongArg(args, 2),
            MetaData(LongArg(args, 3), LongArg(args, 4), if |args| >= 6 then Some(UpToNul(args[5])) else None))
  }

  /** The arguments of an append, byte by byte, and the values that stand for missing ones. */
  lemma RequestMeans(args: seq<Bytes>)
    requires args != [] && WellTyped(args)
    ensures var r := ReadRequest(args);
            && r.data == UpToNul(args[0])
            && (r.first <==> |args| < 2 || args[1][1] as int % 2 == 1)
            && (r.last <==> |args| < 2 || args[1][1] as int / 2 % 2 == 1)
            && r.meta.source == if |args| < 6 then None else Some(UpToNul(args[5]))
    ensures var r := ReadRequest(args);
            && (if |args| < 3 then r.totalLines == -1 else Stands(r.totalLines, args[2]))
            && (if |args| < 4 then r.meta.seqNumber == -1 else Stands(r.meta.seqNumber, args[3]))
            && (if |args| < 5 then r.meta.seqTotal == -1 else Stands(r.meta.seqTotal, args[4]))
  {
    FlagsMean(args);
    NumberMeans(args, 2);
    NumberMeans(args, 3);
    NumberMeans(args, 4);
    hide LongArg, Flags, UpToNul, Stands;
  }

  lemma FlagsMean(args: seq<Bytes>)
    requires args != [] && WellTyped(args)
    ensures Flags(args) % 2 == 1 <==> |args| < 2 || args[1][1] as int % 2 == 1
    ensures Flags(args) / 2 % 2 == 1 <==> |args| < 2 || args[1][1] as int / 2 % 2 == 1
  {
    if |args| >= 2 {
      var high, low := args[1][0] as int, args[1][1] as int;
      assert Flags(args) == 2 * (0x80 * high) + low;
      assert Flags(args) / 2 == 0x80 * high + low / 2;
    }
  }

  lemma NumberMeans(args: seq<Bytes>, i: nat)
    requires WellTyped(args) && 2 <= i < 5
    ensures if |args| <= i then LongArg(args, i) == -1 else Stands(LongArg(args, i), args[i])
  {
  }

  /** Four bytes, the highest first, stand for a signed number. */
  predicate Stands(v: int, b: Bytes) {
    && |b| >= 4 && -0x8000_0000 <= v < 0x8000_0000
    && b[0] as int * 0x100_0000 + b[1] as int * 0x1_0000 + b[2] as int * 0x100 + b[3] as int == v % 0x1_0000_0000
  }

  /** A chunk is added to its client's transaction; the last one empties it. */
  function Collect(t: Transaction, r: Request): Transaction {
    if r.last then NO_TRANSACTION
    else Transaction((if r.first then "" else t.buffer) + r.data, t.active || r.first)
  }

  function Deliver(t: Transaction, r: Request): seq<Call> {
    if r.last then [AppendGCode((if r.first then "" else t.buffer) + r.data, r.totalLines, Some(r.meta))] else []
  }

  predicate IsAppend(c: Command) {
    c.code == GCODE_APPEND && c.args != [] && WellTyped(c.args)
  }

  /** The client's transaction after one of its commands. */
  function After(t: Transaction, c: Command): Transaction {
    if IsAppend(c) then Collect(t, ReadRequest(c.args)) else t
  }

  /** What one command makes the driver do. Codes without a handler do nothing. */
  function Effects(t: Transaction, c: Command, files: Files): seq<Call> {
    if IsAppend(c) then Deliver(t, ReadRequest(c.args))
    else if c.code == GCODE_CLEAR then [ClearGCode]
    else if c.code == GCODE_STARTPRINT then [StartPrint]
    else if c.code == GCODE_STOPPRINT then [StopPrint(if c.args != [] then UpToNul(c.args[0]) else "")]
    else if c.code == GCODE_APPEND_FILE && c.args != [] && !t.active then
      var contents := files(UpToNul(c.args[0]));
      if contents.Some? then [AppendGCode(UpToNul(contents.value), -1, None)] else []
    else []
  }

  function AfterAll(t: Transaction, cs: seq<Command>): Transaction
    decreases |cs|
  {
    if cs == [] then t else AfterAll(After(t, cs[0]), cs[1..])
  }

  function EffectsAll(t: Transaction, cs: seq<Command>, files: Files): seq<Call>
    decreases |cs|
  {
    if cs == [] then [] else Effects(t, cs[0], files) + EffectsAll(After(t, cs[0]), cs[1..], files)
  }

  lemma {:induction false} EffectsAppend(t: Transaction, a: seq<Command>, b: seq<Command>, files: Files)
    ensures EffectsAll(t, a + b, files) == EffectsAll(t, a, files) + EffectsAll(AfterAll(t, a), b, files)
    ensures AfterAll(t, a + b) == AfterAll(AfterAll(t, a), b)
    decreases |a|
  {
    hide Effects, After;
    if a == [] {
      assert a + b == b;
    } else {
      assert (a + b)[0] == a[0] && (a + b)[1..] == a[1..] + b;
      EffectsAppend(After(t, a[0]), a[1..], b, files);
      RegroupCalls(Effects(t, a[0], files), EffectsAll(After(t, a[0]), a[1..], files), EffectsAll(AfterAll(t, a), b, files));
    }
  }

  lemma RegroupCalls(a: seq<Call>, b: seq<Call>, c: seq<Call>)
    ensures a + (b + c) == a + b + c
  {
  }

  // --------------------------------------------------------------- many clients

  /** What a complete command says; anything else says nothing. */
  function Decode(cmd: Bytes): Command {
    if Complete(cmd) > 0 then Command(ReadShort(cmd, 0), ArgsOf(cmd)) else Command(0, [])
  }

  function DecodeAll(cmds: seq<Bytes>): (cs: seq<Command>)
    ensures |cs| == |cmds|
  {
    seq(|cmds|, i requires 0 <= i < |cmds| => Decode(cmds[i]))
  }

  /** Undecoded bytes and open transaction of each client, and what reached the driver, with its sender. */
  datatype Server = Server(pending: seq<Bytes>, trx: seq<Transaction>, calls: seq<(nat, Call)>)

  /** Some bytes of one client arrive. */
  datatype Arrival = Arrival(client: nat, data: Bytes)

  predicate Fits(s: Server, a: Arrival) {
    |s.pending| == |s.trx| && a.client < |s.pending|
  }

  function Tag<T>(i: nat, xs: seq<T>): (tagged: seq<(nat, T)>)
    ensures |tagged| == |xs|
  {
    seq(|xs|, k requires 0 <= k < |xs| => (i, xs[k]))
  }

  /** Reading bytes of a client and running every command that is complete by then. */
  function Arrive(s: Server, a: Arrival, files: Files): Server
    requires Fits(s, a)
  {
    var now := s.pending[a.client] + a.data;
    var cs := DecodeAll(Commands(now));
    Server(s.pending[a.client := Undecoded(now)],
           s.trx[a.client := AfterAll(s.trx[a.client], cs)],
           s.calls + Tag(a.client, EffectsAll(s.trx[a.client], cs, files)))
  }

  predicate AllFit(s: Server, arrivals: seq<Arrival>) {
    |s.pending| == |s.trx| && forall k :: 0 <= k < |arrivals| ==> arrivals[k].client < |s.pending|
  }

  function ArriveAll(s: Server, arrivals: seq<Arrival>, files: Files): Server
    requires AllFit(s, arrivals)
    decreases |arrivals|
  {
    if arrivals == [] then s else ArriveAll(Arrive(s, arrivals[0], files), arrivals[1..], files)
  }

  /** The bytes of one client, read by read. */
  function ReadsOf(arrivals: seq<Arrival>, i: nat): seq<Bytes>
    decreases |arrivals|
  {
    if arrivals == [] then []
    else (if arrivals[0].client == i then [arrivals[0].data] else []) + ReadsOf(arrivals[1..], i)
  }

  /** What one client made the driver do. */
  function Only(calls: seq<(nat, Call)>, i: nat): seq<Call>
    decreases |calls|
  {
    if calls == [] then [] else (if calls[0].0 == i then [calls[0].1] else []) + Only(calls[1..], i)
  }

  lemma {:induction false} OnlyAppend(a: seq<(nat, Call)>, b: seq<(nat, Call)>, i: nat)
    ensures Only(a + b, i) == Only(a, i) + Only(b, i)
    decreases |a|
  {
    if a == [] {
      assert a + b == b;
    } else {
      assert (a + b)[0] == a[0] && (a + b)[1..] == a[1..] + b;
      OnlyAppend(a[1..], b, i);
      RegroupCalls(if a[0].0 == i then [a[0].1] else [], Only(a[1..], i), Only(b, i));
    }
  }

  lemma {:induction false} OnlyTagged(j: nat, calls: seq<Call>, i: nat)
    ensures Only(Tag(j, calls), i) == if i == j then calls else []
    decreases |calls|
  {
    if calls != [] {
      assert Tag(j, calls)[1..] == Tag(j, calls[1..]);
      OnlyTagged(j, calls[1..], i);
    }
  }

  lemma DecodeAllAppend(a: seq<Bytes>, b: seq<Bytes>)
    ensures DecodeAll(a + b) == DecodeAll(a) + DecodeAll(b)
  {
  }

  /** What client i has made the driver do, given its open transaction, undecoded bytes and further reads. */
  function OwnCalls(t: Transaction, pending: Bytes, arrivals: seq<Bytes>, files: Files): seq<Call> {
    EffectsAll(t, DecodeAll(CommandsOfReads(pending, arrivals)), files)
  }

  function OwnTransaction(t: Transaction, pending: Bytes, arrivals: seq<Bytes>): Transaction {
    AfterAll(t, DecodeAll(CommandsOfReads(pending, arrivals)))
  }

  lemma OwnStep(t: Transaction, pending: Bytes, data: Bytes, more: seq<Bytes>, files: Files)
    ensures var cs := DecodeAll(Commands(pending + data));
            var pending', t' := Undecoded(pending + data), AfterAll(t, cs);
            && OwnCalls(t, pending, [data] + more, files) == EffectsAll(t, cs, files) + OwnCalls(t', pending', more, files)
            && OwnTransaction(t, pending, [data] + more) == OwnTransaction(t', pending', more)
            && UndecodedOfReads(pending, [data] + more) == UndecodedOfReads(pending', more)
  {
    var rest := CommandsOfReads(Undecoded(pending + data), more);
    hide DecodeAll, EffectsAll, AfterAll, Commands, Undecoded;
    FirstRead(pending, [data] + more);
    assert ([data] + more)[1..] == more;
    DecodeAllAppend(Commands(pending + data), rest);
    EffectsAppend(t, DecodeAll(Commands(pending + data)), DecodeAll(rest), files);
  }

  lemma NoReads(t: Transaction, pending: Bytes, files: Files)
    ensures OwnCalls(t, pending, [], files) == [] && OwnTransaction(t, pending, []) == t && UndecodedOfReads(pending, []) == pending
  {
  }

  lemma ArriveAt(s: Server, a: Arrival, i: nat, files: Files)
    requires Fits(s, a) && i < |s.pending|
    ensures var r := Arrive(s, a, files);
            && |r.pending| == |s.pending| == |r.trx|
            && (i != a.client ==> r.pending[i] == s.pending[i] && r.trx[i] == s.trx[i] && Only(r.calls, i) == Only(s.calls, i))
            && (i == a.client ==>
                  var cs := DecodeAll(Commands(s.pending[i] + a.data));
                  && r.pending[i] == Undecoded(s.pending[i] + a.data)
                  && r.trx[i] == AfterAll(s.trx[i], cs)
                  && Only(r.calls, i) == Only(s.calls, i) + EffectsAll(s.trx[i], cs, files))
  {
    hide Commands, Undecoded, DecodeAll, AfterAll, EffectsAll, Only, Tag;
    var calls := EffectsAll(s.trx[a.client], DecodeAll(Commands(s.pending[a.client] + a.data)), files);
    OnlyAppend(s.calls, Tag(a.client, calls), i);
    OnlyTagged(a.client, calls, i);
    assert Only(s.calls, i) + [] == Only(s.calls, i);
  }

  lemma FirstArrival(s: Server, arrivals: seq<Arrival>, i: nat, files: Files)
    requires AllFit(s, arrivals)
    ensures arrivals == [] ==> ArriveAll(s, arrivals, files) == s && ReadsOf(arrivals, i) == []
    ensures arrivals != [] ==>
              && Fits(s, arrivals[0]) && AllFit(Arrive(s, arrivals[0], files), arrivals[1..])
              && ArriveAll(s, arrivals, files) == ArriveAll(Arrive(s, arrivals[0], files), arrivals[1..], files)
              && ReadsOf(arrivals, i) == (if arrivals[0].client == i then [arrivals[0].data] else []) + ReadsOf(arrivals[1..], i)
  {
  }

  /** Clients do not disturb each other: what a client makes the driver do, its transaction and its undecoded
      bytes depend on its own reads only, however those of all clients are interleaved. */
  lemma {:induction false} ClientsAreIsolated(s: Server, arrivals: seq<Arrival>, i: nat, files: Files)
    requires AllFit(s, arrivals) && i < |s.pending|
    ensures var r := ArriveAll(s, arrivals, files);
            && |r.pending| == |r.trx| == |s.pending|
            && r.pending[i] == UndecodedOfReads(s.pending[i], ReadsOf(arrivals, i))
            && r.trx[i] == OwnTransaction(s.trx[i], s.pending[i], ReadsOf(arrivals, i))
            && Only(r.calls, i) == Only(s.calls, i) + OwnCalls(s.trx[i], s.pending[i], ReadsOf(arrivals, i), files)
    decreases |arrivals|
  {
    FitsMeans(s, arrivals);
    hide *;
    FirstArrival(s, arrivals, i, files);
    if arrivals == [] {
      NoReads(s.trx[i], s.pending[i], files);
      assert Only(s.calls, i) + [] == Only(s.calls, i);
    } else {
      var a, more := arrivals[0], ReadsOf(arrivals[1..], i);
      var s' := Arrive(s, a, files);
      ArriveAt(s, a, i, files);
      ClientsAreIsolated(s', arrivals[1..], i, files);
      if a.client == i {
        OwnStep(s.trx[i], s.pending[i], a.data, more, files);
        RegroupCalls(Only(s.calls, i), EffectsAll(s.trx[i], DecodeAll(Commands(s.pending[i] + a.data)), files),
                     OwnCalls(s'.trx[i], s'.pending[i], more, files));
      } else {
        assert [] + more == more;
      }
    }
  }

  lemma FitsMeans(s: Server, arrivals: seq<Arrival>)
    requires AllFit(s, arrivals)
    ensures |s.pending| == |s.trx|
  {
  }

  /** Starting from scratch, only the byte stream of a client counts, not how it is cut into reads. */
  lemma OnlyTheStreamCounts(s: Server, arrivals: seq<Arrival>, i: nat, files: Files)
    requires AllFit(s, arrivals) && i < |s.pending|
    requires s.pending[i] == [] && s.trx[i] == NO_TRANSACTION && Only(s.calls, i) == []
    ensures var r, stream := ArriveAll(s, arrivals, files), Flatten(ReadsOf(arrivals, i));
            && |r.pending| == |r.trx| == |s.pending|
            && r.pending[i] == Undecoded(stream)
            && r.trx[i] == AfterAll(NO_TRANSACTION, DecodeAll(Commands(stream)))
            && Only(r.calls, i) == EffectsAll(NO_TRANSACTION, DecodeAll(Commands(stream)), files)
  {
    var mine := ReadsOf(arrivals, i);
    ClientsAreIsolated(s, arrivals, i, files);
    hide Commands, Undecoded, CommandsOfReads, UndecodedOfReads, DecodeAll, AfterAll, EffectsAll, ArriveAll, Only, ReadsOf, Flatten;
    EmptyIsIncomplete();
    FragmentationDoesNotMatter([], mine);
    assert [] + Flatten(mine) == Flatten(mine);
  }

  // ----------------------------------------------------------------- the order

  /** A command, and the transaction of its client when it is run. */
  datatype Running = Running(t: Transaction, c: Command)

  function Traced(t: Transaction, cs: seq<Command>): seq<Running>
    decreases |cs|
  {
    if cs == [] then [] else [Running(t, cs[0])] + Traced(After(t, cs[0]), cs[1..])
  }

  /** The commands run, with their senders, in the order in which they are run. */
  function Executed(s: Server, arrivals: seq<Arrival>, files: Files): seq<(nat, Running)>
    requires AllFit(s, arrivals)
    decreases |arrivals|
  {
    if arrivals == [] then [] else
      var a := arrivals[0];
      Tag(a.client, Traced(s.trx[a.client], DecodeAll(Commands(s.pending[a.client] + a.data)))) + Executed(Arrive(s, a, files), arrivals[1..], files)
  }

  /** Commands that reach the driver: the last chunk of a transaction, clear, start and stop, and a file that can
      be read, unless its client has a transaction in progress. */
  predicate Reaches(r: Running, files: Files) {
    || (IsAppend(r.c) && ReadRequest(r.c.args).last)
    || r.c.code == GCODE_CLEAR || r.c.code == GCODE_STARTPRINT || r.c.code == GCODE_STOPPRINT
    || (r.c.code == GCODE_APPEND_FILE && r.c.args != [] && !r.t.active && files(UpToNul(r.c.args[0])).Some?)
  }

  function Reaching(commands: seq<(nat, Running)>, files: Files): seq<nat>
    decreases |commands|
  {
    if commands == [] then [] else (if Reaches(commands[0].1, files) then [commands[0].0] else []) + Reaching(commands[1..], files)
  }

  function Senders(calls: seq<(nat, Call)>): (ids: seq<nat>)
    ensures |ids| == |calls|
  {
    seq(|calls|, k requires 0 <= k < |calls| => calls[k].0)
  }

  lemma {:induction false} ReachingAppend(a: seq<(nat, Running)>, b: seq<(nat, Running)>, files: Files)
    ensures Reaching(a + b, files) == Reaching(a, files) + Reaching(b, files)
    decreases |a|
  {
    hide Reaches;
    if a == [] {
      assert a + b == b;
    } else {
      assert (a + b)[0] == a[0] && (a + b)[1..] == a[1..] + b;
      ReachingAppend(a[1..], b, files);
      RegroupSenders(if Reaches(a[0].1, files) then [a[0].0] else [], Reaching(a[1..], files), Reaching(b, files));
    }
  }

  lemma RegroupSenders(a: seq<nat>, b: seq<nat>, c: seq<nat>)
    ensures a + (b + c) == a + b + c
  {
  }

  lemma SendersAppend(a: seq<(nat, Call)>, b: seq<(nat, Call)>)
    ensures Senders(a + b) == Senders(a) + Senders(b)
  {
  }

  lemma TagAppend<T>(i: nat, a: seq<T>, b: seq<T>)
    ensures Tag(i, a + b) == Tag(i, a) + Tag(i, b)
  {
  }

  lemma OneCommand(t: Transaction, i: nat, c: Command, files: Files)
    ensures Senders(Tag(i, Effects(t, c, files))) == Reaching(Tag(i, [Running(t, c)]), files)
  {
    assert Tag(i, [Running(t, c)]) == [(i, Running(t, c))];
    assert [(i, Running(t, c))][1..] == [];
  }

  lemma {:induction false} ClientOrder(t: Transaction, i: nat, cs: seq<Command>, files: Files)
    ensures Senders(Tag(i, EffectsAll(t, cs, files))) == Reaching(Tag(i, Traced(t, cs)), files)
    decreases |cs|
  {
    if cs != [] {
      var c, more := cs[0], cs[1..];
      OneCommand(t, i, c, files);
      ClientOrder(After(t, c), i, more, files);
      var now, rest := Effects(t, c, files), EffectsAll(After(t, c), more, files);
      assert EffectsAll(t, cs, files) == now + rest;
      assert Traced(t, cs) == [Running(t, c)] + Traced(After(t, c), more);
      hide *;
      TagAppend(i, now, rest);
      SendersAppend(Tag(i, now), Tag(i, rest));
      TagAppend(i, [Running(t, c)], Traced(After(t, c), more));
      ReachingAppend(Tag(i, [Running(t, c)]), Tag(i, Traced(After(t, c), more)), files);
    }
  }

  /** The driver is called in the order in which the commands that cause the calls are run, exactly once for each:
      for transactions, in the order of their last-chunk packets. */
  lemma {:induction false} CallsAreInOrder(s: Server, arrivals: seq<Arrival>, files: Files)
    requires AllFit(s, arrivals)
    ensures Senders(ArriveAll(s, arrivals, files).calls) == Senders(s.calls) + Reaching(Executed(s, arrivals, files), files)
    decreases |arrivals|
  {
    if arrivals == [] {
      assert Senders(s.calls) + [] == Senders(s.calls);
    } else {
      var a := arrivals[0];
      var s' := Arrive(s, a, files);
      var cs := DecodeAll(Commands(s.pending[a.client] + a.data));
      var calls := EffectsAll(s.trx[a.client], cs, files);
      var rest := Executed(s', arrivals[1..], files);
      hide DecodeAll, Commands, Undecoded, EffectsAll, AfterAll, Reaching, Senders, Traced;
      CallsAreInOrder(s', arrivals[1..], files);
      ClientOrder(s.trx[a.client], a.client, cs, files);
      SendersAppend(s.calls, Tag(a.client, calls));
      ReachingAppend(Tag(a.client, Traced(s.trx[a.client], cs)), rest, files);
      RegroupSenders(Senders(s.calls), Reaching(Tag(a.client, Traced(s.trx[a.client], cs)), files), Reaching(rest, files));
    }
  }
}
