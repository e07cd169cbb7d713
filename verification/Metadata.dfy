/** The sequence-metadata protocol of the G-code buffer: which chunks are
    accepted, and what that promises over a whole series of chunks. */
module Metadata {
  import opened Common

  datatype SetResult =
    | Ok
    | BufferFull
    | SeqNumMissing
    | SeqNumMismatch
    | SeqTotalMissing
    | SeqTotalMismatch
    | SourceMissing
    | SourceMismatch

  /** A field that is not given is negative, or None. */
  datatype MetaData = MetaData(seqNumber: int, seqTotal: int, source: Option<string>)

  const NO_META := MetaData(-1, -1, None)

  /** Metadata as one value; a chunk without metadata has no field given. */
  function Given(meta: Option<MetaData>): MetaData {
    if meta.Some? then meta.value else NO_META
  }

  function CheckNumber(md: MetaData, bufferSize: int, meta: Option<MetaData>): SetResult {
    if md.seqNumber > -1 then
      if meta.None? || meta.value.seqNumber < 0 then SeqNumMissing
      else if md.seqNumber + 1 != meta.value.seqNumber then SeqNumMismatch
      else Ok
    else if meta.Some? && meta.value.seqNumber >= 0 then
      if meta.value.seqNumber > 0 then SeqNumMismatch
      else if bufferSize > 0 then SeqNumMismatch
      else Ok
    else Ok
  }

  function CheckTotal(md: MetaData, meta: Option<MetaData>): SetResult {
    if md.seqTotal <= -1 then Ok
    else if meta.None? || meta.value.seqTotal < 0 then SeqTotalMissing
    else if md.seqTotal != meta.value.seqTotal then SeqTotalMismatch
    else if meta.value.seqNumber + 1 > meta.value.seqTotal then SeqNumMismatch
    else Ok
  }

  function CheckSource(md: MetaData, meta: Option<MetaData>): SetResult {
    if md.source.None? then Ok
    else if meta.None? || meta.value.source.None? then SourceMissing
    else if md.source != meta.value.source then SourceMismatch
    else Ok
  }

  /** The checks in their order; the first that fails decides. */
  function Sanity(md: MetaData, bufferSize: int, meta: Option<MetaData>): SetResult {
    var number := CheckNumber(md, bufferSize, meta);
    if number != Ok then number else
      var total := CheckTotal(md, meta);
      if total != Ok then total else CheckSource(md, meta)
  }

  function NextMetaData(md: MetaData, meta: Option<MetaData>): MetaData {
    if meta.None? then md
    else MetaData(meta.value.seqNumber, meta.value.seqTotal, if md.source.None? then meta.value.source else md.source)
  }

  /** Exactly which chunks pass the checks. */
  lemma SanityMeaning(md: MetaData, bufferSize: int, meta: Option<MetaData>)
    ensures Sanity(md, bufferSize, meta) == Ok <==>
            var g := Given(meta);
            && (md.seqNumber >= 0 ==> g.seqNumber == md.seqNumber + 1)
            && (md.seqNumber < 0 && g.seqNumber >= 0 ==> g.seqNumber == 0 && bufferSize <= 0)
            && (md.seqTotal >= 0 ==> g.seqTotal == md.seqTotal && g.seqNumber < md.seqTotal)
            && (md.source.Some? ==> g.source == md.source)
  {
  }

  /** And exactly why the others fail: numbers are looked at first, then totals, then sources. */
  lemma SanityReasons(md: MetaData, bufferSize: int, meta: Option<MetaData>, number: int, total: int, source: Option<string>)
    requires meta.Some? ==> meta.value == MetaData(number, total, source)
    requires meta.None? ==> number == total == -1 && source == None
    ensures var r := Sanity(md, bufferSize, meta);
            var follows := if md.seqNumber >= 0 then number == md.seqNumber + 1 else number < 0 || (number == 0 && bufferSize <= 0);
            var agrees := md.seqTotal >= 0 ==> total == md.seqTotal && number < total;
            && (r == SeqNumMissing <==> md.seqNumber >= 0 && number < 0)
            && (r == SeqTotalMissing <==> follows && md.seqTotal >= 0 && total < 0)
            && (r == SeqTotalMismatch <==> follows && md.seqTotal >= 0 && total >= 0 && total != md.seqTotal)
            && (r == SourceMissing <==> follows && agrees && md.source.Some? && source.None?)
            && (r == SourceMismatch <==> follows && agrees && md.source.Some? && source.Some? && source != md.source)
            && (r == Ok <==> follows && agrees && (md.source.Some? ==> source == md.source))
            && r != BufferFull
  {
  }

  // ------------------------------------------------------------------- series

  /** One call of append: its metadata, the buffer's byte count at that moment
      and whether the chunk still fits. */
  datatype Attempt = Attempt(meta: Option<MetaData>, bufferSize: nat, fits: bool) {
    function Number(): int { Given(meta).seqNumber }
    function Total(): int { Given(meta).seqTotal }
    function Source(): Option<string> { Given(meta).source }
    function Fields(): MetaData { Given(meta) }
  }

  predicate Accepts(md: MetaData, a: Attempt) {
    Sanity(md, a.bufferSize, a.meta) == Ok && a.fits
  }

  /** The attempts that are accepted, from a state on; a rejected one leaves the state as it is. */
  function Accepted(md: MetaData, attempts: seq<Attempt>): seq<Attempt>
    decreases |attempts|
  {
    if attempts == [] then []
    else if Accepts(md, attempts[0]) then [attempts[0]] + Accepted(NextMetaData(md, attempts[0].meta), attempts[1..])
    else Accepted(md, attempts[1..])
  }

  predicate NumberedFrom(chunks: seq<Attempt>, n: int) {
    forall i :: 0 <= i < |chunks| ==> chunks[i].Number() == n + i
  }

  predicate Unnumbered(chunks: seq<Attempt>) {
    forall i :: 0 <= i < |chunks| ==> chunks[i].Number() < 0
  }

  lemma {:induction false} NumberingContinues(md: MetaData, attempts: seq<Attempt>)
    requires md.seqNumber >= 0
    ensures NumberedFrom(Accepted(md, attempts), md.seqNumber + 1)
    decreases |attempts|
  {
    if attempts != [] {
      var a := attempts[0];
      if Accepts(md, a) {
        SanityMeaning(md, a.bufferSize, a.meta);
        NumberingContinues(NextMetaData(md, a.meta), attempts[1..]);
      } else {
        NumberingContinues(md, attempts[1..]);
      }
    }
  }

  /** Since a clear, the accepted numbers are 0, 1, 2, ... with none omitted once
      numbering starts, and it starts on an empty buffer only. */
  lemma {:induction false} NumbersAreConsecutive(md: MetaData, attempts: seq<Attempt>) returns (start: nat)
    requires md.seqNumber < 0
    ensures start <= |Accepted(md, attempts)|
    ensures Unnumbered(Accepted(md, attempts)[..start])
    ensures NumberedFrom(Accepted(md, attempts)[start..], 0)
    ensures start < |Accepted(md, attempts)| ==> Accepted(md, attempts)[start].bufferSize == 0
    decreases |attempts|
  {
    start := 0;
    if attempts != [] {
      var a := attempts[0];
      if !Accepts(md, a) {
        start := NumbersAreConsecutive(md, attempts[1..]);
      } else {
        SanityMeaning(md, a.bufferSize, a.meta);
        var md' := NextMetaData(md, a.meta);
        var rest := Accepted(md', attempts[1..]);
        if a.Number() >= 0 {
          NumberingContinues(md', attempts[1..]);
          assert ([a] + rest)[0..] == [a] + rest;
        } else {
          var first := NumbersAreConsecutive(md', attempts[1..]);
          start := first + 1;
          assert ([a] + rest)[..start] == [a] + rest[..first];
          assert ([a] + rest)[start..] == rest[first..];
        }
      }
    }
  }

  /** Every chunk carries the total and the source that `md` has fixed, and a number below that total. */
  predicate Agree(md: MetaData, chunks: seq<Attempt>) {
    forall i :: 0 <= i < |chunks| ==>
      && (md.seqTotal >= 0 ==> chunks[i].Total() == md.seqTotal && chunks[i].Number() < md.seqTotal)
      && (md.source.Some? ==> chunks[i].Source() == md.source)
  }

  lemma {:induction false} FixedFieldsStay(md: MetaData, attempts: seq<Attempt>)
    ensures Agree(md, Accepted(md, attempts))
    decreases |attempts|
  {
    if attempts != [] {
      var a := attempts[0];
      if Accepts(md, a) {
        SanityMeaning(md, a.bufferSize, a.meta);
        FixedFieldsStay(NextMetaData(md, a.meta), attempts[1..]);
      } else {
        FixedFieldsStay(md, attempts[1..]);
      }
    }
  }

  /** Once a chunk has fixed the total or the source, every later accepted chunk
      carries the same one, and a number below that total. */
  lemma {:induction false} TotalAndSourceNeverChange(md: MetaData, attempts: seq<Attempt>, i: nat)
    requires i < |Accepted(md, attempts)|
    ensures Agree(Accepted(md, attempts)[i].Fields(), Accepted(md, attempts)[i + 1..])
    decreases |attempts|
  {
    var a := attempts[0];
    if Accepts(md, a) {
      SanityMeaning(md, a.bufferSize, a.meta);
      var md' := NextMetaData(md, a.meta);
      var rest := Accepted(md', attempts[1..]);
      assert ([a] + rest)[i + 1..] == rest[i..];
      if i == 0 {
        FixedFieldsStay(md', attempts[1..]);
        assert rest[0..] == rest;
      } else {
        TotalAndSourceNeverChange(md', attempts[1..], i - 1);
      }
    } else {
      TotalAndSourceNeverChange(md, attempts[1..], i);
    }
  }

  /** The chunk that fixes the total is not itself compared with it: number 0 of 0 is accepted. */
  lemma FixingChunkIsUnchecked(a: Attempt)
    requires a == Attempt(Some(MetaData(0, 0, None)), 0, true)
    ensures Accepted(NO_META, [a]) == [a] && a.Number() >= a.Total() >= 0
  {
    assert Accepts(NO_META, a);
    assert [a][1..] == [];
  }

  /** Every accepted number is below the announced total exactly when that holds
      of the first chunk that announces one. */
  lemma NumbersBelowTotal(attempts: seq<Attempt>, acc: seq<Attempt>, f: nat)
    requires acc == Accepted(NO_META, attempts)
    requires f < |acc| && acc[f].Total() >= 0
    requires forall i :: 0 <= i < f ==> acc[i].Total() < 0
    ensures (forall k :: 0 <= k < |acc| && acc[k].Total() >= 0 ==> acc[k].Number() < acc[k].Total())
            <==> acc[f].Number() < acc[f].Total()
  {
    TotalAndSourceNeverChange(NO_META, attempts, f);
    assert forall k :: f < k < |acc| ==> acc[k] == acc[f + 1..][k - f - 1];
  }
}

/** What command handlers ask of a driver. */
module Calls {
  import opened Common
  import opened Metadata

  datatype Call =
    | AppendGCode(text: string, totalLines: int, meta: Option<MetaData>)
    | ClearGCode
    | StartPrint
    | StopPrint(endCode: string)
}
