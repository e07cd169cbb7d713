/** The 8-bit check of the Makerbot packets (src/drivers/MakerbotDriver.cpp): the Maxim/iButton CRC,
    how packets are framed with it, and which transmission errors it detects. */
module Crc {
  import opened Common

  /** One shift of the register. */
  function Shift(crc: bv8): bv8 {
    if crc & 1 != 0 then (crc >> 1) ^ 0x8C else crc >> 1
  }

  function Shifts(crc: bv8, n: nat): bv8 {
    if n == 0 then crc else Shift(Shifts(crc, n - 1))
  }

  function Twice(crc: bv8): bv8 {
    Shift(Shift(crc))
  }

  function FourTimes(crc: bv8): bv8 {
    Twice(Twice(crc))
  }

  /** All eight shifts of one update. */
  function Turn(crc: bv8): bv8 {
    FourTimes(FourTimes(crc))
  }

  /** The check value of a payload, starting from a register value. */
  function Check(crc: bv8, payload: Frame): bv8
    decreases |payload|
  {
    if payload == [] then crc else Check(Turn(Xor(crc, payload[0])), payload[1..])
  }

  method Update(crc: bv8, data: bv8) returns (r: bv8)
    ensures r == Turn(Xor(crc, data))
  {
    r := crc ^ data;
    ghost var start := r;
    var i := 0;
    while i < 8
      invariant 0 <= i <= 8 && r == Shifts(start, i)
    {
      if r & 1 != 0 {
        r := (r >> 1) ^ 0x8C;
      } else {
        r := r >> 1;
      }
      i := i + 1;
    }
    EightShifts(start);
  }

  lemma EightShifts(crc: bv8)
    ensures Shifts(crc, 8) == Turn(crc)
  {
    TwoShifts(crc, 0);
    TwoShifts(crc, 2);
    TwoShifts(crc, 4);
    TwoShifts(crc, 6);
  }

  lemma TwoShifts(crc: bv8, n: nat)
    ensures Shifts(crc, n + 2) == Twice(Shifts(crc, n))
    ensures n == 0 ==> Shifts(crc, n) == crc
  {
    hide Shift;
    assert Shifts(crc, n + 1) == Shift(Shifts(crc, n));
  }

  // ------------------------------------------------------------------ the algebra

  function Xor(a: bv8, b: bv8): bv8 {
    a ^ b
  }

  lemma ShiftIsLinear(x: bv8, a: bv8, b: bv8)
    requires x == Xor(a, b)
    ensures Shift(x) == Xor(Shift(a), Shift(b))
  {
  }

  lemma TwiceIsLinear(x: bv8, a: bv8, b: bv8)
    requires x == Xor(a, b)
    ensures Twice(x) == Xor(Twice(a), Twice(b))
  {
    hide Shift, Xor;
    ShiftIsLinear(x, a, b);
    ShiftIsLinear(Shift(x), Shift(a), Shift(b));
  }

  lemma FourTimesIsLinear(x: bv8, a: bv8, b: bv8)
    requires x == Xor(a, b)
    ensures FourTimes(x) == Xor(FourTimes(a), FourTimes(b))
  {
    hide Twice, Xor;
    TwiceIsLinear(x, a, b);
    TwiceIsLinear(Twice(x), Twice(a), Twice(b));
  }

  lemma TurnIsLinear(x: bv8, a: bv8, b: bv8)
    requires x == Xor(a, b)
    ensures Turn(x) == Xor(Turn(a), Turn(b))
  {
    hide FourTimes, Xor;
    FourTimesIsLinear(x, a, b);
    FourTimesIsLinear(FourTimes(x), FourTimes(a), FourTimes(b));
  }

  /** The bits of a byte, the least significant one first. */
  predicate Bit(b: bv8, k: nat)
    requires k < 8
  {
    b & Mask(k) != 0
  }

  function Mask(k: nat): bv8
    requires k < 8
  {
    if k == 0 then 0x01 else if k == 1 then 0x02 else if k == 2 then 0x04 else if k == 3 then 0x08
    else if k == 4 then 0x10 else if k == 5 then 0x20 else if k == 6 then 0x40 else 0x80
  }

  function One(bit: bool): nat {
    if bit then 1 else 0
  }

  /** Number of bits that are set. */
  function Weight(b: bv8): nat {
    One(Bit(b, 0)) + One(Bit(b, 1)) + One(Bit(b, 2)) + One(Bit(b, 3))
    + One(Bit(b, 4)) + One(Bit(b, 5)) + One(Bit(b, 6)) + One(Bit(b, 7))
  }

  lemma MaskedXor(a: bv8, b: bv8, m: bv8)
    requires m == 0x01 || m == 0x02 || m == 0x04 || m == 0x08 || m == 0x10 || m == 0x20 || m == 0x40 || m == 0x80
    ensures (a ^ b) & m != 0 <==> ((a & m != 0) != (b & m != 0))
    ensures (a & b) & m != 0 <==> (a & m != 0) && (b & m != 0)
  {
  }

  lemma BitOfXor(a: bv8, b: bv8, k: nat)
    requires k < 8
    ensures Bit(Xor(a, b), k) <==> (Bit(a, k) != Bit(b, k))
    ensures Bit(a & b, k) <==> Bit(a, k) && Bit(b, k)
  {
    MaskHasOneBit(k);
    hide Mask;
    MaskedXor(a, b, Mask(k));
  }

  lemma MaskHasOneBit(k: nat)
    requires k < 8
    ensures var m := Mask(k);
            m == 0x01 || m == 0x02 || m == 0x04 || m == 0x08 || m == 0x10 || m == 0x20 || m == 0x40 || m == 0x80
  {
  }

  lemma OneOfXor(a: bv8, b: bv8, k: nat)
    requires k < 8
    ensures One(Bit(Xor(a, b), k)) + 2 * One(Bit(a & b, k)) == One(Bit(a, k)) + One(Bit(b, k))
  {
    hide Bit, Xor;
    BitOfXor(a, b, k);
  }

  lemma WeightOfXor(a: bv8, b: bv8)
    ensures Weight(Xor(a, b)) + 2 * Weight(a & b) == Weight(a) + Weight(b)
  {
    hide Bit, Xor, One;
    OneOfXor(a, b, 0);
    OneOfXor(a, b, 1);
    OneOfXor(a, b, 2);
    OneOfXor(a, b, 3);
    OneOfXor(a, b, 4);
    OneOfXor(a, b, 5);
    OneOfXor(a, b, 6);
    OneOfXor(a, b, 7);
  }

  lemma ShiftFacts(a: bv8)
    ensures Shift(a) == 0 <==> a == 0
    ensures Weight(Shift(a)) % 2 == Weight(a) % 2
  {
  }

  lemma TwiceFacts(a: bv8)
    ensures Twice(a) == 0 <==> a == 0
    ensures Weight(Twice(a)) % 2 == Weight(a) % 2
  {
    hide Shift, Weight;
    ShiftFacts(a);
    ShiftFacts(Shift(a));
  }

  /** An update loses nothing, only zero turns to zero, and it keeps the parity. */
  lemma TurnFacts(a: bv8)
    ensures Turn(a) == 0 <==> a == 0
    ensures Weight(Turn(a)) % 2 == Weight(a) % 2
  {
    hide Twice, Weight;
    TwiceFacts(a);
    TwiceFacts(Twice(a));
    TwiceFacts(FourTimes(a));
    TwiceFacts(Twice(FourTimes(a)));
  }

  // ----------------------------------------------------------- transmission errors

  /** A received word is a payload followed by its check byte. */
  predicate Accepted(word: Frame) {
    word != [] && Check(0, word[..|word| - 1]) == word[|word| - 1]
  }

  /** The word with some bits inverted. */
  function Disturb(word: Frame, error: Frame): (r: Frame)
    requires |word| == |error|
    ensures |r| == |word|
  {
    seq(|word|, i requires 0 <= i < |word| => Xor(word[i], error[i]))
  }

  lemma DisturbTail(word: Frame, error: Frame)
    requires |word| == |error| > 0
    ensures Disturb(word, error)[0] == Xor(word[0], error[0])
    ensures Disturb(word, error)[1..] == Disturb(word[1..], error[1..])
  {
  }

  lemma XorLaws(a: bv8, b: bv8, c: bv8)
    ensures Xor(a, b) == Xor(b, a)
    ensures Xor(Xor(a, b), c) == Xor(a, Xor(b, c))
  {
  }

  lemma XorShuffle(a: bv8, b: bv8, c: bv8, d: bv8)
    ensures Xor(Xor(a, b), Xor(c, d)) == Xor(Xor(a, c), Xor(b, d))
  {
    hide Xor;
    XorLaws(a, b, Xor(c, d));
    XorLaws(b, c, d);
    XorLaws(c, b, d);
    XorLaws(a, c, Xor(b, d));
  }

  lemma {:induction false} CheckIsLinear(c: bv8, d: bv8, word: Frame, error: Frame)
    requires |word| == |error|
    ensures Check(Xor(c, d), Disturb(word, error)) == Xor(Check(c, word), Check(d, error))
    decreases |word|
  {
    hide Turn, Xor;
    if word != [] {
      DisturbTail(word, error);
      XorShuffle(c, d, word[0], error[0]);
      TurnIsLinear(Xor(Xor(c, word[0]), Xor(d, error[0])), Xor(c, word[0]), Xor(d, error[0]));
      CheckIsLinear(Turn(Xor(c, word[0])), Turn(Xor(d, error[0])), word[1..], error[1..]);
    }
  }

  lemma DisturbInit(word: Frame, error: Frame)
    requires |word| == |error| > 0
    ensures Disturb(word, error)[..|word| - 1] == Disturb(word[..|word| - 1], error[..|word| - 1])
    ensures Disturb(word, error)[|word| - 1] == Xor(word[|word| - 1], error[|word| - 1])
  {
  }

  lemma XorCancels(a: bv8, b: bv8, c: bv8)
    ensures Xor(a, b) == Xor(a, c) <==> b == c
  {
  }

  /** Whether an error is detected does not depend on the payload: it goes undetected exactly if
      the error pattern would itself be an accepted word. */
  lemma DetectionDependsOnErrorOnly(word: Frame, error: Frame)
    requires |word| == |error| && Accepted(word)
    ensures Accepted(Disturb(word, error)) <==> Accepted(error)
  {
    var n := |word| - 1;
    DisturbInit(word, error);
    assert Xor(0, 0) == 0;
    hide Xor, Turn;
    CheckIsLinear(0, 0, word[..n], error[..n]);
    XorCancels(word[n], Check(0, error[..n]), error[n]);
  }

  // ------------------------------------------------------------- what is detected

  /** A word is accepted exactly if running the check byte through the register as well leaves zero. */
  lemma AcceptedIffZero(word: Frame)
    requires word != []
    ensures Accepted(word) <==> Check(0, word) == 0
  {
    var n := |word| - 1;
    assert word == word[..n] + [word[n]];
    CheckAppend(0, word[..n], [word[n]]);
    CheckOne(Check(0, word[..n]), word[n]);
    TurnFacts(Xor(Check(0, word[..n]), word[n]));
    XorZero(Check(0, word[..n]), word[n]);
  }

  lemma {:induction false} CheckAppend(c: bv8, a: Frame, b: Frame)
    ensures Check(c, a + b) == Check(Check(c, a), b)
    decreases |a|
  {
    hide Turn, Xor;
    if a == [] {
      assert a + b == b;
    } else {
      assert (a + b)[0] == a[0] && (a + b)[1..] == a[1..] + b;
      CheckAppend(Turn(Xor(c, a[0])), a[1..], b);
    }
  }

  lemma CheckOne(c: bv8, b: bv8)
    ensures Check(c, [b]) == Turn(Xor(c, b))
  {
    hide Turn, Xor;
    assert [b][1..] == [];
  }

  lemma XorZero(a: bv8, b: bv8)
    ensures Xor(a, b) == 0 <==> a == b
    ensures Xor(0, b) == b && Xor(a, 0) == a
  {
  }

  function TotalWeight(error: Frame): nat
    decreases |error|
  {
    if error == [] then 0 else Weight(error[0]) + TotalWeight(error[1..])
  }

  lemma {:induction false} CheckKeepsParity(c: bv8, word: Frame)
    ensures Weight(Check(c, word)) % 2 == (Weight(c) + TotalWeight(word)) % 2
    decreases |word|
  {
    hide Turn, Xor, Weight;
    if word != [] {
      WeightOfXor(c, word[0]);
      TurnFacts(Xor(c, word[0]));
      CheckKeepsParity(Turn(Xor(c, word[0])), word[1..]);
    }
  }

  lemma NoWeight()
    ensures Weight(0) == 0
  {
  }

  /** Every error that inverts an odd number of bits is detected, whatever the length of the payload. */
  lemma OddErrorsAreDetected(word: Frame, error: Frame)
    requires |word| == |error| && Accepted(word)
    requires TotalWeight(error) % 2 == 1
    ensures !Accepted(Disturb(word, error))
  {
    DetectionDependsOnErrorOnly(word, error);
    AcceptedIffZero(error);
    CheckKeepsParity(0, error);
    NoWeight();
  }

  /** The k-th bit of a word on the line, least significant bit of each byte first. */
  predicate BitAt(error: Frame, k: nat)
    requires k < 8 * |error|
  {
    Bit(error[k / 8], k % 8)
  }

  /** Some bits are inverted, and all of them lie among the eight bits that start at s. */
  predicate Burst(error: Frame, s: nat) {
    && (exists k :: 0 <= k < 8 * |error| && BitAt(error, k))
    && (forall k :: 0 <= k < 8 * |error| && BitAt(error, k) ==> s <= k < s + 8)
  }

  function Low(r: nat): bv8
    requires r < 8
  {
    if r == 0 then 0x00 else if r == 1 then 0x01 else if r == 2 then 0x03 else if r == 3 then 0x07
    else if r == 4 then 0x0F else if r == 5 then 0x1F else if r == 6 then 0x3F else 0x7F
  }

  lemma LowBitsUnset(b: bv8, r: nat)
    requires r < 8 && forall k :: 0 <= k < r ==> !Bit(b, k)
    ensures b & Low(r) == 0
  {
    assert (r > 0 ==> !Bit(b, 0)) && (r > 1 ==> !Bit(b, 1)) && (r > 2 ==> !Bit(b, 2)) && (r > 3 ==> !Bit(b, 3));
    assert (r > 4 ==> !Bit(b, 4)) && (r > 5 ==> !Bit(b, 5)) && (r > 6 ==> !Bit(b, 6));
  }

  lemma HighBitsUnset(b: bv8, r: nat)
    requires r < 8 && forall k :: r <= k < 8 ==> !Bit(b, k)
    ensures b & !Low(r) == 0
  {
    assert (r < 1 ==> !Bit(b, 0)) && (r < 2 ==> !Bit(b, 1)) && (r < 3 ==> !Bit(b, 2)) && (r < 4 ==> !Bit(b, 3));
    assert (r < 5 ==> !Bit(b, 4)) && (r < 6 ==> !Bit(b, 5)) && (r < 7 ==> !Bit(b, 6)) && !Bit(b, 7);
  }

  /** Eight consecutive bits that straddle two bytes never cancel each other in the register. */
  lemma StraddlingBits(a: bv8, b: bv8, r: nat)
    requires r < 8 && a & Low(r) == 0 && b & !Low(r) == 0 && (a != 0 || b != 0)
    ensures Turn(a) != b
  {
  }

  predicate Zeros(error: Frame) {
    forall i :: 0 <= i < |error| ==> error[i] == 0
  }

  /** Undisturbed bytes keep a register zero or nonzero. */
  lemma {:induction false} ZerosKeepZero(c: bv8, error: Frame)
    requires Zeros(error)
    ensures Check(c, error) == 0 <==> c == 0
    decreases |error|
  {
    hide Turn, Xor;
    if error != [] {
      XorZero(c, 0);
      TurnFacts(c);
      ZerosKeepZero(Turn(c), error[1..]);
    }
  }

  lemma ByteOfBurst(error: Frame, s: nat, j: nat)
    requires Burst(error, s) && j < |error|
    ensures j != s / 8 && j != s / 8 + 1 ==> error[j] == 0
    ensures j == s / 8 ==> error[j] & Low(s % 8) == 0
    ensures j == s / 8 + 1 ==> error[j] & !Low(s % 8) == 0
  {
    hide Bit, Low;
    forall t | 0 <= t < 8
      ensures Bit(error[j], t) ==> s <= 8 * j + t < s + 8
    {
      assert (8 * j + t) / 8 == j && (8 * j + t) % 8 == t;
      assert BitAt(error, 8 * j + t) <==> Bit(error[j], t);
    }
    if j == s / 8 {
      LowBitsUnset(error[j], s % 8);
    } else if j == s / 8 + 1 {
      HighBitsUnset(error[j], s % 8);
    } else {
      NoBits(error[j]);
    }
  }

  lemma BurstBytes(error: Frame, s: nat)
    requires Burst(error, s)
    ensures s / 8 < |error|
    ensures forall j :: 0 <= j < |error| && j != s / 8 && j != s / 8 + 1 ==> error[j] == 0
    ensures error[s / 8] & Low(s % 8) == 0
    ensures s / 8 + 1 < |error| ==> error[s / 8 + 1] & !Low(s % 8) == 0
    ensures error[s / 8] != 0 || (s / 8 + 1 < |error| && error[s / 8 + 1] != 0)
  {
    var k :| 0 <= k < 8 * |error| && BitAt(error, k);
    assert s <= k < s + 8;
    hide Bit, Low, Burst;
    SetBit(error[k / 8], k % 8);
    forall j | 0 <= j < |error|
      ensures j != s / 8 && j != s / 8 + 1 ==> error[j] == 0
      ensures j == s / 8 ==> error[j] & Low(s % 8) == 0
      ensures j == s / 8 + 1 ==> error[j] & !Low(s % 8) == 0
    {
      ByteOfBurst(error, s, j);
    }
  }

  lemma NoBits(b: bv8)
    requires forall k :: 0 <= k < 8 ==> !Bit(b, k)
    ensures b == 0
  {
    HighBitsUnset(b, 0);
  }

  lemma SetBit(b: bv8, k: nat)
    requires k < 8 && Bit(b, k)
    ensures b != 0
  {
  }

  /** Every burst of at most eight consecutive bits is detected, whether it lies in one byte, straddles two,
      or reaches into the check byte. A change of a single byte is such a burst. */
  lemma BurstsAreDetected(word: Frame, error: Frame, s: nat)
    requires |word| == |error| && Accepted(word)
    requires Burst(error, s)
    ensures !Accepted(Disturb(word, error))
  {
    BurstBytes(error, s);
    DetectionDependsOnErrorOnly(word, error);
    AcceptedIffZero(error);
    hide Turn, Xor, Low, Burst, Accepted, Disturb, Check;
    var i := s / 8;
    var before, rest := error[..i], error[i..];
    assert error == before + rest;
    CheckAppend(0, before, rest);
    ZerosKeepZero(0, before);
    if i + 1 == |error| {
      assert rest == [error[i]];
      CheckOne(0, error[i]);
      XorZero(0, error[i]);
      TurnFacts(error[i]);
    } else {
      TwoThenZeros(rest, s % 8);
    }
  }

  lemma TwoThenZeros(rest: Frame, r: nat)
    requires r < 8 && |rest| >= 2 && Zeros(rest[2..])
    requires rest[0] & Low(r) == 0 && rest[1] & !Low(r) == 0 && (rest[0] != 0 || rest[1] != 0)
    ensures Check(0, rest) != 0
  {
    StraddlingBits(rest[0], rest[1], r);
    hide Turn, Low, Xor;
    var c := Turn(rest[0]);
    XorZero(0, rest[0]);
    XorZero(c, rest[1]);
    TurnFacts(Xor(c, rest[1]));
    assert rest[1..][1..] == rest[2..];
    ZerosKeepZero(Turn(Xor(c, rest[1])), rest[2..]);
  }

  /** Every change of a single byte, the check byte included, is detected. */
  lemma SingleByteChangesAreDetected(word: Frame, i: nat, b: bv8)
    requires Accepted(word) && i < |word| && b != word[i]
    ensures !Accepted(word[i := b])
  {
    hide *;
    var before, rest := word[..i], word[i + 1..];
    ReplacedByte(word, i, b);
    AcceptedIffZero(word);
    AcceptedIffZero(word[i := b]);
    CheckAppend(0, before, [word[i]] + rest);
    CheckAppend(0, before, [b] + rest);
    var c := Check(0, before);
    CheckFirst(c, word[i], rest);
    CheckFirst(c, b, rest);
    XorCancels(c, word[i], b);
    TurnIsInjective(Xor(c, word[i]), Xor(c, b));
    CheckIsInjective(Turn(Xor(c, word[i])), Turn(Xor(c, b)), rest);
  }

  lemma ReplacedByte(word: Frame, i: nat, b: bv8)
    requires i < |word|
    ensures word == word[..i] + ([word[i]] + word[i + 1..])
    ensures word[i := b] == word[..i] + ([b] + word[i + 1..]) && word[i := b] != [] && word != []
  {
  }

  lemma CheckFirst(c: bv8, b: bv8, rest: Frame)
    ensures Check(c, [b] + rest) == Check(Turn(Xor(c, b)), rest)
  {
    hide Turn, Xor;
    assert ([b] + rest)[1..] == rest;
  }

  lemma TurnIsInjective(a: bv8, b: bv8)
    ensures Turn(a) == Turn(b) <==> a == b
  {
    TurnIsLinear(Xor(a, b), a, b);
    TurnFacts(Xor(a, b));
    XorZero(a, b);
    XorZero(Turn(a), Turn(b));
  }

  lemma {:induction false} CheckIsInjective(c: bv8, d: bv8, word: Frame)
    ensures Check(c, word) == Check(d, word) <==> c == d
    decreases |word|
  {
    hide Turn, Xor;
    if word != [] {
      XorLaws(c, word[0], word[0]);
      XorLaws(d, word[0], word[0]);
      XorCancels(word[0], c, d);
      TurnIsInjective(Xor(c, word[0]), Xor(d, word[0]));
      CheckIsInjective(Turn(Xor(c, word[0])), Turn(Xor(d, word[0])), word[1..]);
    }
  }

  // --------------------------------------------------------------------- framing

  /** A packet: start byte, length (its low eight bits), payload, check byte. */
  function Packet(payload: Frame): Frame {
    [0xD5, (|payload| % 256) as bv8] + payload + [Check(0, payload)]
  }

  /** Builds the packet for a payload. */
  method MakePacket(payload: Frame) returns (pktBuf: Frame)
    ensures pktBuf == Packet(payload)
    ensures Accepted(pktBuf[2..]) && pktBuf[2..|pktBuf| - 1] == payload
  {
    hide Turn, Xor;
    pktBuf := [0xD5, (|payload| % 256) as bv8];
    var crc := 0;
    var i := 0;
    while i < |payload|
      invariant 0 <= i <= |payload|
      invariant pktBuf == [0xD5, (|payload| % 256) as bv8] + payload[..i]
      invariant Check(0, payload) == Check(crc, payload[i..])
    {
      crc := Update(crc, payload[i]);
      pktBuf := pktBuf + [payload[i]];
      i := i + 1;
    }
    assert payload[..i] == payload;
    pktBuf := pktBuf + [crc];
    assert pktBuf[2..] == payload + [Check(0, payload)];
    assert (payload + [Check(0, payload)])[..|payload|] == payload;
  }

  /** The comparison at the end of parseResponse. */
  method ResponseIsIntact(buf: Frame, crc: bv8) returns (intact: bool)
    ensures intact <==> Accepted(buf + [crc])
  {
    hide Turn, Xor;
    var realCrc := 0;
    var i := 0;
    while i < |buf|
      invariant 0 <= i <= |buf|
      invariant Check(0, buf) == Check(realCrc, buf[i..])
    {
      realCrc := Update(realCrc, buf[i]);
      i := i + 1;
    }
    assert (buf + [crc])[..|buf|] == buf;
    intact := crc == realCrc;
  }
}
