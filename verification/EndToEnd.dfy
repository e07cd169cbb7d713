/** From the text a client hands to comm_sendGCodeData to the appendGCode call of the driver:
    cutting, encoding, fragmented and interleaved arrival, reassembly and collection together. */
module EndToEnd {
  import opened Calls
  import opened Chunker
  import opened CommandStream
  import opened Common
  import opened Ipc
  import opened Metadata
  import opened Transactions

  /** One call of comm_sendGCodeData; a field that is not given is -1 or None. */
  datatype Job = Job(text: Bytes, totalLines: int, seqNumber: int, seqTotal: int, source: Option<Bytes>)

  predicate NoNul(b: Bytes) {
    forall i :: 0 <= i < |b| ==> b[i] != '\0'
  }

  predicate Int32(v: int) {
    -0x8000_0000 <= v < 0x8000_0000
  }

  /** A C string, with 32-bit numbers and a C string as source. */
  predicate Sound(job: Job) {
    && NoNul(job.text)
    && Int32(job.totalLines) && Int32(job.seqNumber) && Int32(job.seqTotal)
    && (job.source.Some? ==> NoNul(job.source.value) && |job.source.value| < 0x1_0000_0000)
  }

  function Bits(p: Packet): int {
    (if p.first then FIRST_CHUNK_BIT else 0) + (if p.last then LAST_CHUNK_BIT else 0)
  }

  function PacketArgs(job: Job, p: Packet): seq<Arg> {
    [Blob(Some(p.data)), Word(Bits(p)), Wide(job.totalLines), Wide(job.seqNumber), Wide(job.seqTotal)]
    + if job.source.Some? then [Text(job.source.value)] else []
  }

  function PacketCommand(job: Job, p: Packet): Command {
    Command(GCODE_APPEND, AllArgBytes(PacketArgs(job, p)))
  }

  function JobCommands(job: Job): (cs: seq<Command>)
    ensures |cs| == |Packets(job.text)|
  {
    seq(|Packets(job.text)|, j requires 0 <= j < |Packets(job.text)| => PacketCommand(job, Packets(job.text)[j]))
  }

  function JobCall(job: Job): Call {
    AppendGCode(job.text, job.totalLines, Some(MetaData(job.seqNumber, job.seqTotal, job.source)))
  }

  /** The first k packets of a job. Sending ends early when an answer fails or a line is too long for a packet. */
  datatype Sending = Sending(job: Job, k: nat)

  /** The whole text was cut and sent. Nothing is sent of an empty one. */
  predicate Finished(x: Sending) {
    x.job.text != "" && Cuttable(x.job.text) && x.k == |JobCommands(x.job)|
  }

  predicate AllSound(xs: seq<Sending>) {
    forall j :: 0 <= j < |xs| ==> Sound(xs[j].job) && xs[j].k <= |JobCommands(xs[j].job)|
  }

  /** The commands of some sendings, one after the other. */
  function SentCommands(xs: seq<Sending>): seq<Command>
    requires AllSound(xs)
  {
    if xs == [] then [] else SentCommands(xs[..|xs| - 1]) + JobCommands(xs[|xs| - 1].job)[..xs[|xs| - 1].k]
  }

  /** The calls they should make: one for each that is finished. */
  function FinishedCalls(xs: seq<Sending>): seq<Call> {
    if xs == [] then [] else
      FinishedCalls(xs[..|xs| - 1]) + if Finished(xs[|xs| - 1]) then [JobCall(xs[|xs| - 1].job)] else []
  }

  // ------------------------------------------------------------------ one packet

  /** Every field of a packet command is read back as it was sent. */
  lemma PacketReadsBack(job: Job, p: Packet)
    requires Sound(job) && NoNul(p.data) && |p.data| <= MAX_PACKET_SIZE
    ensures IsAppend(PacketCommand(job, p)) && Proper(PacketCommand(job, p))
    ensures ReadRequest(PacketCommand(job, p).args)
         == Request(p.data, p.first, p.last, job.totalLines, MetaData(job.seqNumber, job.seqTotal, job.source))
  {
    var args := PacketCommand(job, p).args;
    assert args[0] == p.data && args[1] == Short(Bits(p));
    assert args[2] == Long(job.totalLines) && args[3] == Long(job.seqNumber) && args[4] == Long(job.seqTotal);
    assert job.source.Some? ==> |args| == 6 && args[5] == job.source.value;
    hide AllArgBytes, PacketArgs, Short, Long, ReadShort, ReadLong;
    LongRoundTrip(job.totalLines);
    LongRoundTrip(job.seqNumber);
    LongRoundTrip(job.seqTotal);
    BitsReadBack(p);
  }

  /** The command for a packet, argument by argument: code 0x13, the data, bit 0 for the first and bit 1 for the
      last packet, line count, sequence number and sequence total in four bytes each, and the source if there is one. */
  lemma PacketLayout(job: Job, p: Packet)
    requires Sound(job)
    ensures var c := PacketCommand(job, p);
            && c.code == 0x13 && |c.args| == (if job.source.Some? then 6 else 5)
            && c.args[0] == p.data
            && c.args[1] == [0 as char, ((if p.first then 1 else 0) + (if p.last then 2 else 0)) as char]
            && Stands(job.totalLines, c.args[2]) && Stands(job.seqNumber, c.args[3]) && Stands(job.seqTotal, c.args[4])
            && (job.source.Some? ==> c.args[5] == job.source.value)
  {
    var args := PacketCommand(job, p).args;
    assert args[0] == p.data && args[1] == Short(Bits(p));
    assert args[2] == Long(job.totalLines) && args[3] == Long(job.seqNumber) && args[4] == Long(job.seqTotal);
    hide AllArgBytes, PacketArgs, Long;
    BigEndian(job.totalLines);
    BigEndian(job.seqNumber);
    BigEndian(job.seqTotal);
  }

  lemma BitsReadBack(p: Packet)
    ensures ReadShort(Short(Bits(p)), 0) % 2 == 1 <==> p.first
    ensures ReadShort(Short(Bits(p)), 0) / 2 % 2 == 1 <==> p.last
  {
    ShortReadsBack(Bits(p), Short(Bits(p)), 0);
  }

  lemma {:induction false} PiecesHaveNoNul(g: Bytes, j: nat)
    requires NoNul(g) && j < |Pieces(g)|
    ensures NoNul(Pieces(g)[j]) && |Pieces(g)[j]| <= MAX_PACKET_SIZE
    decreases |g|
  {
    if j > 0 {
      PiecesHaveNoNul(g[Cut(g)..], j - 1);
    }
  }

  // --------------------------------------------------------------------- one job

  lemma EffectOfPacket(t: Transaction, job: Job, j: nat, files: Files)
    requires Sound(job) && j < |Packets(job.text)|
    ensures var p, c := Packets(job.text)[j], JobCommands(job)[j];
            var text := (if j == 0 then "" else t.buffer) + p.data;
            && Effects(t, c, files) ==
               (if p.last then [AppendGCode(text, job.totalLines, Some(MetaData(job.seqNumber, job.seqTotal, job.source)))] else [])
            && After(t, c) == if p.last then NO_TRANSACTION else Transaction(text, t.active || j == 0)
  {
    var p := Packets(job.text)[j];
    PiecesHaveNoNul(job.text, j);
    hide Pieces, Cuttable;
    PacketReadsBack(job, p);
  }

  lemma LastPacket(job: Job, j: nat)
    requires j < |JobCommands(job)|
    ensures Packets(job.text)[j].last <==> Finished(Sending(job, j + 1))
    ensures !Finished(Sending(job, j))
  {
    Unfold(job.text);
  }

  lemma NoPacket(job: Job)
    ensures !Finished(Sending(job, 0))
  {
    Unfold(job.text);
  }

  /** The transaction after k packets of a job, and the one call that its last packet makes. Whatever was left
      in the transaction by an earlier job is dropped with the first packet. */
  lemma {:induction false} JobSoFar(t: Transaction, job: Job, k: nat, files: Files)
    requires Sound(job) && k <= |JobCommands(job)|
    ensures AfterAll(t, JobCommands(job)[..k]) ==
            if k == 0 then t
            else if Finished(Sending(job, k)) then NO_TRANSACTION
            else Transaction(Flatten(Pieces(job.text)[..k]), true)
    ensures EffectsAll(t, JobCommands(job)[..k], files) == if Finished(Sending(job, k)) then [JobCall(job)] else []
    decreases k
  {
    var cs := JobCommands(job);
    if k == 0 {
      NoPacket(job);
      assert cs[..0] == [];
    } else {
      var j := k - 1;
      JobSoFar(t, job, j, files);
      LastPacket(job, j);
      PrefixOfCommands(cs, j);
      PrefixOfPieces(Pieces(job.text), j);
      var t' := AfterAll(t, cs[..j]);
      OneMore(t', cs[j], files);
      PacketData(job.text, j);
      FinishedText(job, k);
      hide Effects, After, JobCommands, Pieces, AfterAll, EffectsAll, Packets, Flatten, Finished;
      EffectsAppend(t, cs[..j], [cs[j]], files);
      EffectOfPacket(t', job, j, files);
    }
  }

  lemma FinishedText(job: Job, k: nat)
    requires k <= |Pieces(job.text)|
    ensures Finished(Sending(job, k)) ==> Flatten(Pieces(job.text)[..k]) == job.text
  {
    if Finished(Sending(job, k)) {
      PiecesAreTheText(job.text);
      assert Pieces(job.text)[..k] == Pieces(job.text);
    }
  }

  lemma PrefixOfCommands(cs: seq<Command>, j: nat)
    requires j < |cs|
    ensures cs[..j + 1] == cs[..j] + [cs[j]]
  {
  }

  lemma PrefixOfPieces(ps: seq<Bytes>, j: nat)
    requires j < |ps|
    ensures Flatten(ps[..j + 1]) == Flatten(ps[..j]) + ps[j]
    ensures j == 0 ==> Flatten(ps[..j + 1]) == ps[j]
    ensures j + 1 == |ps| ==> ps[..j + 1] == ps
  {
    assert ps[..j + 1] == ps[..j] + [ps[j]];
    FlattenLast(ps[..j], ps[j]);
    FlattenOne(ps[j]);
  }

  lemma OneMore(t: Transaction, c: Command, files: Files)
    ensures AfterAll(t, [c]) == After(t, c) && EffectsAll(t, [c], files) == Effects(t, c, files)
  {
    assert [c][1..] == [];
  }

  lemma PacketData(g: Bytes, j: nat)
    requires j < |Packets(g)|
    ensures Packets(g)[j].data == Pieces(g)[j]
  {
  }

  // -------------------------------------------------------------------- all jobs

  lemma LastSending(xs: seq<Sending>)
    requires AllSound(xs)
    ensures xs == [] ==> SentCommands(xs) == [] && FinishedCalls(xs) == []
    ensures xs != [] ==>
              var init, x := xs[..|xs| - 1], xs[|xs| - 1];
              && AllSound(init) && Sound(x.job) && x.k <= |JobCommands(x.job)|
              && SentCommands(xs) == SentCommands(init) + JobCommands(x.job)[..x.k]
              && FinishedCalls(xs) == FinishedCalls(init) + if Finished(x) then [JobCall(x.job)] else []
  {
  }

  /** Sendings one after the other, finished or abandoned in any order, make one call for each that is
      finished, whatever was left in the transaction before. */
  lemma {:induction false} JobsInSequence(t: Transaction, xs: seq<Sending>, files: Files)
    requires AllSound(xs)
    ensures EffectsAll(t, SentCommands(xs), files) == FinishedCalls(xs)
    decreases |xs|
  {
    hide *;
    LastSending(xs);
    if xs == [] {
      NothingSent(t, files);
    } else {
      var init, x := xs[..|xs| - 1], xs[|xs| - 1];
      JobsInSequence(t, init, files);
      EffectsAppend(t, SentCommands(init), JobCommands(x.job)[..x.k], files);
      JobSoFar(AfterAll(t, SentCommands(init)), x.job, x.k, files);
    }
  }

  lemma NothingSent(t: Transaction, files: Files)
    ensures EffectsAll(t, [], files) == []
  {
  }

  predicate OnlyAppends(cs: seq<Command>) {
    forall j :: 0 <= j < |cs| ==> Proper(cs[j]) && cs[j].code == GCODE_APPEND
  }

  lemma CommandIsProper(job: Job, j: nat)
    requires Sound(job) && j < |JobCommands(job)|
    ensures Proper(JobCommands(job)[j]) && JobCommands(job)[j].code == GCODE_APPEND
  {
    PiecesHaveNoNul(job.text, j);
    hide Pieces, Cuttable;
    PacketReadsBack(job, Packets(job.text)[j]);
  }

  lemma JobIsSent(job: Job, k: nat)
    requires Sound(job) && k <= |JobCommands(job)|
    ensures OnlyAppends(JobCommands(job)[..k])
  {
    forall j | 0 <= j < k
      ensures Proper(JobCommands(job)[j]) && JobCommands(job)[j].code == GCODE_APPEND
    {
      CommandIsProper(job, j);
    }
  }

  lemma {:induction false} JobsAreSent(xs: seq<Sending>)
    requires AllSound(xs)
    ensures OnlyAppends(SentCommands(xs))
    decreases |xs|
  {
    hide Sound, JobCommands, SentCommands, FinishedCalls, Proper;
    LastSending(xs);
    if xs != [] {
      JobsAreSent(xs[..|xs| - 1]);
      JobIsSent(xs[|xs| - 1].job, xs[|xs| - 1].k);
    }
  }

  lemma {:induction false} DecodedEncodings(cs: seq<Command>)
    requires OnlyAppends(cs)
    ensures DecodeAll(Encodings(cs)) == cs
  {
    if cs != [] {
      var c := cs[0];
      RoundTrip(c, []);
      assert Encode(c) + [] == Encode(c);
      assert Decode(Encode(c)) == c;
      DecodedEncodings(cs[1..]);
      hide Decode, Encode;
      DecodeCons(Encode(c), Encodings(cs[1..]));
    }
  }

  lemma DecodeCons(b: Bytes, bs: seq<Bytes>)
    ensures DecodeAll([b] + bs) == [Decode(b)] + DecodeAll(bs)
  {
  }

  /** The reads of a client carry the packets of some sendings, and a rest that is not a complete command. */
  predicate Carry(data: seq<Bytes>, xs: seq<Sending>, rest: Bytes) {
    && AllSound(xs) && Complete(rest) == 0
    && Flatten(data) == Flatten(Encodings(SentCommands(xs))) + rest
  }

  /** Nothing has come from a client yet. */
  predicate NewClient(s: Server, i: nat) {
    |s.trx| == |s.pending| && i < |s.pending| && s.pending[i] == [] && s.trx[i] == NO_TRANSACTION && Only(s.calls, i) == []
  }

  /** The whole way: a client sends texts with comm_sendGCodeData, some to their end, some abandoned in the middle
      or cut off at a line that is too long, and its bytes reach the server in any fragments, interleaved in any
      way with whatever other clients send. Then that client has made the driver do exactly one appendGCode for
      each text that was sent to its end, with its own text and metadata, in the order sent, and none for the others. */
  lemma TextsArriveIntact(s: Server, arrivals: seq<Arrival>, i: nat, xs: seq<Sending>, rest: Bytes, files: Files)
    requires AllFit(s, arrivals) && NewClient(s, i)
    requires Carry(ReadsOf(arrivals, i), xs, rest)
    ensures Only(ArriveAll(s, arrivals, files).calls, i) == FinishedCalls(xs)
  {
    var cs := SentCommands(xs);
    OnlyTheStreamCounts(s, arrivals, i, files);
    JobsAreSent(xs);
    hide AllFit, Only, Sound, SentCommands, JobCommands, Flatten, ReadsOf, Encodings, ArriveAll, Complete, EffectsAll, AfterAll, Commands, Undecoded, DecodeAll;
    StreamOfEncodings(cs, rest);
    DecodedEncodings(cs);
    JobsInSequence(NO_TRANSACTION, xs, files);
  }
}
