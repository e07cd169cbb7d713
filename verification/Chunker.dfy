/** How a frontend cuts G-code into packets (src/frontends/communicator.c, comm_sendGCodeData). */
module Chunker {
  import opened Common
  import opened Ipc
  import opened Strings

  const MAX_PACKET_SIZE := 1024 - 8

  /** One packet of a transaction, with its transaction bits. */
  datatype Packet = Packet(data: Bytes, first: bool, last: bool)

  /** Number of bytes up to and including the last newline among the first n bytes; 0 if there is none. */
  function LastBreak(g: Bytes, n: nat): (k: nat)
    requires n <= |g|
    ensures k <= n
    ensures k > 0 ==> g[k - 1] == '\n'
    ensures forall i :: k <= i < n ==> g[i] != '\n'
  {
    if n == 0 then 0 else if g[n - 1] == '\n' then n else LastBreak(g, n - 1)
  }

  /** Length of the next packet; 0 if no line break allows one. */
  function Cut(g: Bytes): (k: nat)
    requires g != ""
    ensures k <= |g|
  {
    if |g| <= MAX_PACKET_SIZE then |g| else LastBreak(g, MAX_PACKET_SIZE)
  }

  /** The packets the cutting yields before it ends or fails. */
  function Pieces(g: Bytes): seq<Bytes>
    decreases |g|
  {
    if g == "" || Cut(g) == 0 then [] else [g[..Cut(g)]] + Pieces(g[Cut(g)..])
  }

  /** Whether the cutting reaches the end. */
  predicate Cuttable(g: Bytes)
    decreases |g|
  {
    g == "" || (Cut(g) > 0 && Cuttable(g[Cut(g)..]))
  }

  function Packets(g: Bytes): (ps: seq<Packet>)
    ensures |ps| == |Pieces(g)|
  {
    seq(|Pieces(g)|, j requires 0 <= j < |Pieces(g)| =>
        Packet(Pieces(g)[j], j == 0, Cuttable(g) && j == |Pieces(g)| - 1))
  }

  /** The data of packets, one after the other. */
  function Joined(ps: seq<Packet>): Bytes {
    if ps == [] then "" else Joined(ps[..|ps| - 1]) + ps[|ps| - 1].data
  }

  /** A packet is as long as it can be: it holds 1016 bytes at most, and no longer beginning of the text that fits
      ends with a line or is the whole text. */
  lemma CutIsLongest(g: Bytes, n: nat)
    requires g != "" && 0 < n <= |g| && n <= 1016 && (n == |g| || g[n - 1] == '\n')
    ensures n <= Cut(g) <= 1016 && (Cut(g) == |g| || g[Cut(g) - 1] == '\n')
  {
  }

  lemma NothingJoined(gcode: Bytes)
    ensures Joined([]) == "" == gcode[..0] && MarksEnds([], gcode)
  {
  }

  lemma JoinedLast(ps: seq<Packet>, p: Packet)
    ensures Joined(ps + [p]) == Joined(ps) + p.data
  {
    assert (ps + [p])[..|ps|] == ps;
  }

  // ------------------------------------------------------------------- the loop

  /** Position of the last byte of the packet that starts at startP; before it if there is none. */
  method EndOfPacket(gcode: Bytes, startP: nat) returns (endP: int)
    requires startP < |gcode|
    ensures startP - 1 <= endP < |gcode| && Cut(gcode[startP..]) == endP + 1 - startP
  {
    var lastPos := |gcode| - 1;
    endP := startP + MAX_PACKET_SIZE - 1;
    if endP >= lastPos {
      endP := lastPos;
    } else {
      while endP >= startP && gcode[endP] != '\n'
        invariant startP - 1 <= endP < startP + MAX_PACKET_SIZE
        invariant forall i :: endP < i < startP + MAX_PACKET_SIZE ==> gcode[i] != '\n'
      {
        endP := endP - 1;
      }
    }
    CutIs(gcode, startP, endP + 1 - startP);
  }

  /** The first bit is on the first packet, and the last bit on the one that completes the text. */
  predicate MarksEnds(sent: seq<Packet>, gcode: Bytes) {
    forall j :: 0 <= j < |sent| ==>
      && (sent[j].first <==> j == 0)
      && (sent[j].last <==> Joined(sent[..j + 1]) == gcode)
  }

  lemma OneMoreMarked(sent: seq<Packet>, p: Packet, gcode: Bytes, start: nat, end: nat)
    requires MarksEnds(sent, gcode) && start < end <= |gcode| && Joined(sent) == gcode[..start]
    requires p.data == gcode[start..end] && (p.first <==> |sent| == 0) && (p.last <==> end == |gcode|)
    ensures MarksEnds(sent + [p], gcode) && Joined(sent + [p]) == gcode[..end]
  {
    JoinedLast(sent, p);
    assert gcode[..start] + gcode[start..end] == gcode[..end];
    forall j | 0 <= j < |sent| + 1
      ensures (sent + [p])[j].last <==> Joined((sent + [p])[..j + 1]) == gcode
    {
      if j < |sent| {
        assert (sent + [p])[..j + 1] == sent[..j + 1];
      } else {
        assert (sent + [p])[..j + 1] == sent + [p];
      }
    }
  }

  /** The result of the last of n sends that failed, or 0. */
  function LastFailure(respond: nat -> int, n: nat): (r: int)
    ensures r <= 0 && (r == 0 <==> forall j :: 0 <= j < n ==> respond(j) >= 0)
    ensures n > 0 && respond(n - 1) < 0 ==> r == respond(n - 1)
  {
    if n == 0 then 0 else if respond(n - 1) < 0 then respond(n - 1) else LastFailure(respond, n - 1)
  }

  /** Sends the packets one by one. The result of each, as handleBasicResponse returns it, is whatever the server
      answers. Only a result of -1 stops the loop, other failures are remembered. */
  method SendGCodeData(gcode: Bytes, respond: nat -> int) returns (rv: int, sent: seq<Packet>)
    ensures sent <= Packets(gcode) && Joined(sent) <= gcode
    ensures MarksEnds(sent, gcode)
    ensures forall j :: 0 <= j < |sent| - 1 ==> respond(j) != -1
    ensures rv == if sent == Packets(gcode) && !Cuttable(gcode) then -1 else LastFailure(respond, |sent|)
    ensures sent == Packets(gcode) || (sent != [] && respond(|sent| - 1) == -1)
    ensures rv == 0 <==> Cuttable(gcode) && sent == Packets(gcode) && forall j :: 0 <= j < |sent| ==> respond(j) >= 0
  {
    hide Pieces, Cuttable, Packets, Cut, Joined, MarksEnds;
    NothingJoined(gcode);
    rv, sent := 0, [];
    var startP := 0;
    var lastPos := |gcode| - 1;
    assert gcode[0..] == gcode;
    while startP <= lastPos
      invariant 0 <= startP <= |gcode| && rv != -1
      invariant rv == LastFailure(respond, |sent|)
      invariant forall j :: 0 <= j < |sent| ==> respond(j) != -1
      invariant sent <= Packets(gcode)
      invariant Pieces(gcode)[|sent|..] == Pieces(gcode[startP..])
      invariant Cuttable(gcode) <==> Cuttable(gcode[startP..])
      invariant startP == 0 <==> |sent| == 0
      invariant Joined(sent) == gcode[..startP] && MarksEnds(sent, gcode)
      decreases |gcode| - startP
    {
      var endP := EndOfPacket(gcode, startP);
      if endP < startP {
        NoPiece(gcode, startP, |sent|);
        rv := -1;
        return;
      }
      NextPacket(gcode, startP, endP + 1 - startP, |sent|);
      var result := respond(|sent|);
      var packet := Packet(gcode[startP..endP + 1], |sent| == 0, endP == lastPos);
      OneMoreMarked(sent, packet, gcode, startP, endP + 1);
      sent := sent + [packet];
      if result < 0 {
        rv := result;
      }
      startP := endP + 1;
      if rv == -1 {
        return;
      }
    }
    AtEnd(gcode, startP, |sent|);
  }

  /** The search from the end of the window finds the cut. */
  lemma CutIs(g: Bytes, start: nat, k: nat)
    requires start < |g| && start + k <= |g|
    requires |g| - start <= MAX_PACKET_SIZE ==> k == |g| - start
    requires |g| - start > MAX_PACKET_SIZE ==>
               && k <= MAX_PACKET_SIZE && (k > 0 ==> g[start + k - 1] == '\n')
               && forall i :: start + k <= i < start + MAX_PACKET_SIZE ==> g[i] != '\n'
    ensures Cut(g[start..]) == k
  {
    var r := g[start..];
    if |r| > MAX_PACKET_SIZE {
      assert forall i :: 0 <= i < MAX_PACKET_SIZE ==> r[i] == g[start + i];
    }
  }

  lemma NextPacket(g: Bytes, start: nat, k: nat, n: nat)
    requires start < |g| && k == Cut(g[start..]) > 0 && start + k <= |g|
    requires n <= |Pieces(g)| && Pieces(g)[n..] == Pieces(g[start..])
    requires Cuttable(g) <==> Cuttable(g[start..])
    ensures n < |Packets(g)|
    ensures Packets(g)[n] == Packet(g[start..start + k], n == 0, start + k == |g|)
    ensures Pieces(g)[n + 1..] == Pieces(g[start + k..])
    ensures Cuttable(g) <==> Cuttable(g[start + k..])
  {
    var r := g[start..];
    Advance(g, start, k);
    Unfold(r);
    assert Pieces(g)[n..][0] == Pieces(g)[n] && Pieces(g)[n..][1..] == Pieces(g)[n + 1..];
    Unfold(g[start + k..]);
  }

  lemma Advance(g: Bytes, start: nat, k: nat)
    requires start + k <= |g|
    ensures g[start..][..k] == g[start..start + k] && g[start..][k..] == g[start + k..]
  {
  }

  lemma Unfold(g: Bytes)
    ensures g == "" ==> Pieces(g) == [] && Cuttable(g)
    ensures g != "" && Cut(g) == 0 ==> Pieces(g) == [] && !Cuttable(g)
    ensures g != "" && Cut(g) > 0 ==>
              && Pieces(g) == [g[..Cut(g)]] + Pieces(g[Cut(g)..])
              && (Cuttable(g) <==> Cuttable(g[Cut(g)..]))
    ensures g != "" && Pieces(g) == [] ==> !Cuttable(g)
  {
  }

  lemma NoPiece(g: Bytes, start: nat, n: nat)
    requires start < |g| && Cut(g[start..]) == 0
    requires n <= |Pieces(g)| && Pieces(g)[n..] == Pieces(g[start..])
    requires Cuttable(g) <==> Cuttable(g[start..])
    ensures n == |Packets(g)| && !Cuttable(g)
  {
  }

  lemma AtEnd(g: Bytes, start: nat, n: nat)
    requires start == |g|
    requires n <= |Pieces(g)| && Pieces(g)[n..] == Pieces(g[start..])
    requires Cuttable(g) <==> Cuttable(g[start..])
    ensures n == |Packets(g)| && Cuttable(g)
  {
  }

  // ---------------------------------------------------------------- what is cut

  predicate LineStart(g: Bytes, i: nat)
    requires i < |g|
  {
    i == 0 || g[i - 1] == '\n'
  }

  /** Length of the line that starts at i, its newline counted if it has one. */
  function LineLength(g: Bytes, i: nat): nat
    requires i < |g|
  {
    var p := Find(g, '\n', i);
    if p == NPOS then |g| - i else p + 1 - i
  }

  predicate LinesFit(g: Bytes) {
    forall i :: 0 <= i < |g| && LineStart(g, i) ==> LineLength(g, i) <= MAX_PACKET_SIZE
  }

  lemma LineInRest(g: Bytes, k: nat, i: nat)
    requires 0 < k <= i < |g| && g[k - 1] == '\n'
    ensures LineStart(g, i) <==> LineStart(g[k..], i - k)
    ensures LineLength(g, i) == LineLength(g[k..], i - k)
  {
    var r := g[k..];
    var p, q := Find(g, '\n', i), Find(r, '\n', i - k);
    assert forall j :: 0 <= j < |r| ==> r[j] == g[j + k];
    assert q != NPOS ==> g[q + k] == '\n';
    assert p != NPOS ==> r[p - k] == '\n';
  }

  lemma LineInPiece(g: Bytes, k: nat, i: nat)
    requires i < k <= |g| && k <= MAX_PACKET_SIZE && (k == |g| || g[k - 1] == '\n')
    ensures LineLength(g, i) <= MAX_PACKET_SIZE
  {
  }

  /** The greedy cutting is complete: it succeeds exactly when every line, counted with its newline, fits a packet. */
  lemma {:induction false} CuttableIffLinesFit(g: Bytes)
    ensures Cuttable(g) <==> LinesFit(g)
    decreases |g|
  {
    if g != "" {
      var k := Cut(g);
      if k == 0 {
        assert LineStart(g, 0);
        assert LineLength(g, 0) > MAX_PACKET_SIZE;
      } else {
        CuttableIffLinesFit(g[k..]);
        forall i | 0 <= i < k
          ensures LineLength(g, i) <= MAX_PACKET_SIZE
        {
          LineInPiece(g, k, i);
        }
        if k < |g| {
          RestFits(g, k);
        }
      }
    }
  }

  lemma RestFits(g: Bytes, k: nat)
    requires 0 < k < |g| && g[k - 1] == '\n'
    requires forall i :: 0 <= i < k ==> LineLength(g, i) <= MAX_PACKET_SIZE
    ensures LinesFit(g) <==> LinesFit(g[k..])
  {
    forall i | k <= i < |g|
      ensures LineStart(g, i) <==> LineStart(g[k..], i - k)
      ensures LineLength(g, i) == LineLength(g[k..], i - k)
    {
      LineInRest(g, k, i);
    }
    if LinesFit(g) {
      forall j | 0 <= j < |g[k..]| && LineStart(g[k..], j)
        ensures LineLength(g[k..], j) <= MAX_PACKET_SIZE
      {
        assert LineStart(g, j + k);
      }
    }
  }

  predicate WholePackets(ps: seq<Bytes>) {
    && (forall j :: 0 <= j < |ps| ==> 1 <= |ps[j]| <= MAX_PACKET_SIZE)
    && (forall j :: 0 <= j < |ps| - 1 ==> ps[j][|ps[j]| - 1] == '\n')
  }

  /** The cutting is sound: the packets are the text, each has 1 to MAX_PACKET_SIZE bytes, and all but the last end a line. */
  lemma {:induction false} PiecesAreTheText(g: Bytes)
    requires Cuttable(g)
    ensures Flatten(Pieces(g)) == g
    ensures WholePackets(Pieces(g))
    decreases |g|
  {
    hide *;
    Unfold(g);
    NoTexts();
    if g != "" {
      CutSize(g);
      var k := Cut(g);
      PiecesAreTheText(g[k..]);
      FirstPiece(g, k, Pieces(g[k..]));
      Unfold(g[k..]);
    }
  }

  lemma NoTexts()
    ensures Flatten<Byte>([]) == [] && WholePackets([])
  {
  }

  lemma CutSize(g: Bytes)
    requires Cuttable(g) && g != ""
    ensures 0 < Cut(g) <= MAX_PACKET_SIZE && (Cut(g) < |g| ==> g[Cut(g) - 1] == '\n')
  {
  }

  lemma FirstPiece(g: Bytes, k: nat, rest: seq<Bytes>)
    requires 0 < k <= |g| && k <= MAX_PACKET_SIZE && (k < |g| ==> g[k - 1] == '\n')
    requires Flatten(rest) == g[k..] && WholePackets(rest)
    ensures Flatten([g[..k]] + rest) == g
    ensures k < |g| ==> WholePackets([g[..k]] + rest)
    ensures rest == [] ==> WholePackets([g[..k]] + rest)
  {
    FlattenCons(g[..k], rest);
    assert g[..k] + g[k..] == g;
  }

  /** For any text, sent to its end or not, the last bit is on a packet exactly if the text ends with it. */
  lemma {:induction false} BitsMarkTheEnds(g: Bytes, j: nat)
    requires j < |Packets(g)|
    ensures Packets(g)[j].first <==> j == 0
    ensures Packets(g)[j].last <==> Flatten(Pieces(g)[..j + 1]) == g
    decreases |g|
  {
    hide Flatten, Cut;
    Unfold(g);
    var k := Cut(g);
    var rest := g[k..];
    Unfold(rest);
    assert g == g[..k] + rest;
    if j == 0 {
      assert Pieces(g)[..1] == [g[..k]];
      FlattenOne(g[..k]);
    } else {
      BitsMarkTheEnds(rest, j - 1);
      assert Pieces(g)[..j + 1] == [g[..k]] + Pieces(rest)[..j];
      FlattenCons(g[..k], Pieces(rest)[..j]);
    }
  }
}
