/** Reassembly of commands from the byte stream of one client (src/server/Client.cpp). */
module CommandStream {
  import opened Common
  import opened Ipc
  import opened Strings

  /** The complete commands at the start of a buffer, one after the other. */
  function Commands(buf: Bytes): seq<Bytes>
    decreases |buf|
  {
    var l := Complete(buf);
    if l == 0 then [] else [buf[..l]] + Commands(buf[l..])
  }

  /** What follows the last complete command. */
  function Undecoded(buf: Bytes): Bytes
    decreases |buf|
  {
    var l := Complete(buf);
    if l == 0 then buf else Undecoded(buf[l..])
  }

  lemma FirstCommand(buf: Bytes)
    ensures Complete(buf) == 0 ==> Commands(buf) == [] && Undecoded(buf) == buf
    ensures Complete(buf) > 0 ==>
              && Commands(buf) == [buf[..Complete(buf)]] + Commands(buf[Complete(buf)..])
              && Undecoded(buf) == Undecoded(buf[Complete(buf)..])
  {
  }

  /** A complete command stays complete whatever follows. */
  lemma CompleteIsStable(a: Bytes, b: Bytes)
    requires Complete(a) > 0
    ensures Complete(a + b) == Complete(a)
    ensures (a + b)[..Complete(a)] == a[..Complete(a)] && (a + b)[Complete(a)..] == a[Complete(a)..] + b
  {
    var e := Complete(a);
    assert (a + b)[..e] == a[..e];
    assert ReadShort(a + b, 2) == ReadShort(a, 2);
    EndIsLocal(a, a + b, 4, ReadShort(a, 2));
  }

  /** Nothing is lost or made up: the stream is its commands followed by the undecoded rest. */
  lemma {:induction false} CommandsAreTheStream(buf: Bytes)
    ensures buf == Flatten(Commands(buf)) + Undecoded(buf)
    ensures Complete(Undecoded(buf)) == 0
    decreases |buf|
  {
    hide *;
    FirstCommand(buf);
    FlattenNone<Byte>();
    if Complete(buf) == 0 {
      assert [] + buf == buf;
    } else {
      var l := Complete(buf);
      CommandsAreTheStream(buf[l..]);
      FlattenCons(buf[..l], Commands(buf[l..]));
      Regroup(buf[..l], Flatten(Commands(buf[l..])), Undecoded(buf[l..]));
      assert buf == buf[..l] + buf[l..];
    }
  }

  /** More bytes extend the commands and never change those already decoded. */
  lemma {:induction false} StreamContinues(a: Bytes, b: Bytes)
    ensures Commands(a + b) == Commands(a) + Commands(Undecoded(a) + b)
    ensures Undecoded(a + b) == Undecoded(Undecoded(a) + b)
    decreases |a|
  {
    hide *;
    FirstCommand(a);
    if Complete(a) == 0 {
      assert [] + Commands(a + b) == Commands(a + b);
    } else {
      var l := Complete(a);
      CompleteIsStable(a, b);
      FirstCommand(a + b);
      StreamContinues(a[l..], b);
      assert [a[..l]] + (Commands(a[l..]) + Commands(Undecoded(a) + b)) == [a[..l]] + Commands(a[l..]) + Commands(Undecoded(a) + b);
    }
  }

  /** The commands run when a stream arrives in several reads: after each, as many as are complete. */
  function CommandsOfReads(pending: Bytes, arrivals: seq<Bytes>): seq<Bytes>
    decreases |arrivals|
  {
    if arrivals == [] then []
    else Commands(pending + arrivals[0]) + CommandsOfReads(Undecoded(pending + arrivals[0]), arrivals[1..])
  }

  function UndecodedOfReads(pending: Bytes, arrivals: seq<Bytes>): Bytes
    decreases |arrivals|
  {
    if arrivals == [] then pending else UndecodedOfReads(Undecoded(pending + arrivals[0]), arrivals[1..])
  }

  lemma FirstRead(pending: Bytes, arrivals: seq<Bytes>)
    ensures arrivals == [] ==> CommandsOfReads(pending, arrivals) == [] && UndecodedOfReads(pending, arrivals) == pending
    ensures arrivals == [] ==> pending + Flatten(arrivals) == pending
    ensures arrivals != [] ==>
              && CommandsOfReads(pending, arrivals)
                 == Commands(pending + arrivals[0]) + CommandsOfReads(Undecoded(pending + arrivals[0]), arrivals[1..])
              && UndecodedOfReads(pending, arrivals) == UndecodedOfReads(Undecoded(pending + arrivals[0]), arrivals[1..])
              && Flatten(arrivals) == arrivals[0] + Flatten(arrivals[1..])
  {
  }

  /** Fragmentation does not matter: however a stream is split into reads, the same commands are run in the
      same order and the same bytes are left. */
  lemma {:induction false} FragmentationDoesNotMatter(pending: Bytes, arrivals: seq<Bytes>)
    requires Complete(pending) == 0
    ensures CommandsOfReads(pending, arrivals) == Commands(pending + Flatten(arrivals))
    ensures UndecodedOfReads(pending, arrivals) == Undecoded(pending + Flatten(arrivals))
    decreases |arrivals|
  {
    hide *;
    FirstRead(pending, arrivals);
    if arrivals == [] {
      FirstCommand(pending);
    } else {
      var now := pending + arrivals[0];
      CommandsAreTheStream(now);
      FragmentationDoesNotMatter(Undecoded(now), arrivals[1..]);
      StreamContinues(now, Flatten(arrivals[1..]));
      Regroup(pending, arrivals[0], Flatten(arrivals[1..]));
    }
  }

  // --------------------------------------------------------- streams of encodings

  /** A command that the codec can send: at most 65535 arguments of less than 2^32 bytes each. */
  predicate Proper(c: Command) {
    |c.args| < 0x1_0000 && Sendable(c.args)
  }

  predicate AllProper(cs: seq<Command>) {
    forall i :: 0 <= i < |cs| ==> Proper(cs[i])
  }

  function Encodings(cs: seq<Command>): seq<Bytes> {
    if cs == [] then [] else [Encode(cs[0])] + Encodings(cs[1..])
  }

  lemma FirstEncoding(cs: seq<Command>, rest: Bytes)
    ensures cs == [] ==> Encodings(cs) == [] && Flatten(Encodings(cs)) + rest == rest
    ensures cs != [] && AllProper(cs) ==>
              && Encodings(cs) == [Encode(cs[0])] + Encodings(cs[1..])
              && Flatten(Encodings(cs)) + rest == Encode(cs[0]) + (Flatten(Encodings(cs[1..])) + rest)
              && Proper(cs[0]) && AllProper(cs[1..])
  {
    if cs != [] {
      FlattenCons(Encode(cs[0]), Encodings(cs[1..]));
      Regroup(Encode(cs[0]), Flatten(Encodings(cs[1..])), rest);
    }
  }

  lemma LeadingEncoding(c: Command, rest: Bytes)
    requires Proper(c)
    ensures Complete(Encode(c) + rest) == |Encode(c)| > 0
    ensures (Encode(c) + rest)[..|Encode(c)|] == Encode(c) && (Encode(c) + rest)[|Encode(c)|..] == rest
  {
    RoundTrip(c, rest);
  }

  /** A concatenation of encoded commands and an incomplete rest runs exactly those commands and leaves exactly the rest. */
  lemma {:induction false} StreamOfEncodings(cs: seq<Command>, rest: Bytes)
    requires AllProper(cs) && Complete(rest) == 0
    ensures Commands(Flatten(Encodings(cs)) + rest) == Encodings(cs)
    ensures Undecoded(Flatten(Encodings(cs)) + rest) == rest
  {
    hide *;
    FirstEncoding(cs, rest);
    if cs == [] {
      FirstCommand(rest);
    } else {
      var more := Flatten(Encodings(cs[1..])) + rest;
      LeadingEncoding(cs[0], more);
      FirstCommand(Encode(cs[0]) + more);
      StreamOfEncodings(cs[1..], rest);
    }
  }

  /** Put together: encoded commands, cut off anywhere inside the next one and split into any reads. */
  lemma ReassembledCommands(cs: seq<Command>, next: Command, k: nat, arrivals: seq<Bytes>)
    requires AllProper(cs) && Proper(next) && k < |Encode(next)|
    requires Flatten(arrivals) == Flatten(Encodings(cs)) + Encode(next)[..k]
    ensures CommandsOfReads([], arrivals) == Encodings(cs)
    ensures UndecodedOfReads([], arrivals) == Encode(next)[..k]
  {
    PrefixFree(next, k);
    StreamOfEncodings(cs, Encode(next)[..k]);
    hide *;
    EmptyIsIncomplete();
    FragmentationDoesNotMatter([], arrivals);
    assert [] + Flatten(arrivals) == Flatten(arrivals);
  }

  lemma EmptyIsIncomplete()
    ensures Complete([]) == 0
  {
  }
}
