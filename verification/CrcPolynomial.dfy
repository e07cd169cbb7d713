/** Which code the check byte is: the words accepted are exactly the multiples, over bits, of the Maxim/iButton
    generator x^8 + x^5 + x^4 + 1, the first bit on the line standing for the highest power. */
module CrcPolynomial {
  import opened Common
  import opened Crc

  /** A sequence of bits that goes on with zeros at both ends. */
  predicate At(q: seq<bool>, s: int) {
    0 <= s < |q| && q[s]
  }

  /** The k-th bit of the product of q and the generator: a bit of q shows 0, 3, 4 and 8 places further on. */
  predicate Product(q: seq<bool>, k: int) {
    (At(q, k) != At(q, k - 3)) != (At(q, k - 4) != At(q, k - 8))
  }

  /** The bits of a word on the line are those of the product. */
  predicate IsMultiple(word: Frame, q: seq<bool>) {
    && |q| == 8 * |word| - 8
    && forall k :: 0 <= k < 8 * |word| ==> (BitAt(word, k) <==> Product(q, k))
  }

  // ------------------------------------------------------------------ bit by bit

  function Bits(word: Frame): (b: seq<bool>)
    ensures |b| == 8 * |word|
  {
    seq(8 * |word|, k requires 0 <= k < 8 * |word| => BitAt(word, k))
  }

  /** The register after one more bit. */
  function Feed(c: bv8, b: bool): bv8 {
    Shift(Xor(c, if b then 1 else 0))
  }

  /** The bit that is fed back. */
  predicate Fed(c: bv8, b: bool) {
    Bit(c, 0) != b
  }

  function FeedAll(c: bv8, bits: seq<bool>): bv8 {
    if bits == [] then c else Feed(FeedAll(c, bits[..|bits| - 1]), bits[|bits| - 1])
  }

  /** All bits that are fed back. */
  function Quotient(bits: seq<bool>): (q: seq<bool>)
    ensures |q| == |bits|
  {
    if bits == [] then [] else
      var init := bits[..|bits| - 1];
      Quotient(init) + [Fed(FeedAll(0, init), bits[|bits| - 1])]
  }

  lemma {:induction false} FeedAppend(c: bv8, a: seq<bool>, b: seq<bool>)
    ensures FeedAll(c, a + b) == FeedAll(FeedAll(c, a), b)
    decreases |b|
  {
    hide Feed;
    if b == [] {
      assert a + b == a;
    } else {
      assert (a + b)[..|a + b| - 1] == a + b[..|b| - 1];
      FeedAppend(c, a, b[..|b| - 1]);
    }
  }

  /** Half-way through a byte, the bits to come lie over the register. */
  lemma ShiftIsFeed(c: bv8, d: bv8)
    ensures Shift(Xor(c, d)) == Xor(Feed(c, Bit(d, 0)), d >> 1)
  {
  }

  lemma NextBit(d: bv8, k: nat)
    requires k < 7
    ensures Bit(d >> 1, k) == Bit(d, k + 1)
  {
    ShiftedMasks(d);
  }

  lemma ShiftedMasks(d: bv8)
    ensures ((d >> 1) & 0x01 != 0) == (d & 0x02 != 0) && ((d >> 1) & 0x02 != 0) == (d & 0x04 != 0)
    ensures ((d >> 1) & 0x04 != 0) == (d & 0x08 != 0) && ((d >> 1) & 0x08 != 0) == (d & 0x10 != 0)
    ensures ((d >> 1) & 0x10 != 0) == (d & 0x20 != 0) && ((d >> 1) & 0x20 != 0) == (d & 0x40 != 0)
    ensures ((d >> 1) & 0x40 != 0) == (d & 0x80 != 0) && (d >> 1) & 0x80 == 0
  {
  }

  /** The first n bits of a byte. */
  function Low(d: bv8, n: nat): (b: seq<bool>)
    requires n <= 8
    ensures |b| == n
  {
    seq(n, k requires 0 <= k < n => Bit(d, k))
  }

  /** Some shifts of a register with a byte over it are as many bits fed. */
  lemma {:induction false} ShiftsAreFeeds(c: bv8, d: bv8, n: nat)
    requires n <= 8
    ensures Shifts(Xor(c, d), n) == Xor(FeedAll(c, Low(d, n)), Gone(d, n))
    decreases n
  {
    hide Feed, Xor, Shift, Bit;
    if n > 0 {
      ShiftsAreFeeds(c, d, n - 1);
      var r := FeedAll(c, Low(d, n - 1));
      ShiftIsFeed(r, Gone(d, n - 1));
      BitOfGone(d, n - 1);
      assert Low(d, n)[..n - 1] == Low(d, n - 1);
    }
  }

  /** What is left of a byte after n shifts. */
  function Gone(d: bv8, n: nat): bv8 {
    if n == 0 then d else Gone(d, n - 1) >> 1
  }

  lemma BitOfGone(d: bv8, n: nat)
    requires n < 8
    ensures Bit(Gone(d, n), 0) == Bit(d, n)
  {
    BitsOfGone(d, n, 0);
  }

  lemma {:induction false} BitsOfGone(d: bv8, n: nat, k: nat)
    requires n + k < 8
    ensures Bit(Gone(d, n), k) == Bit(d, n + k)
    decreases n
  {
    hide Bit;
    if n > 0 {
      NextBit(Gone(d, n - 1), k);
      BitsOfGone(d, n - 1, k + 1);
    }
  }

  lemma AllGone(d: bv8)
    ensures Gone(d, 8) == 0
  {
    var d1 := d >> 1;
    var d2 := d1 >> 1;
    var d3 := d2 >> 1;
    var d4 := d3 >> 1;
    EightZeros(d);
    assert Gone(d, 1) == d1 && Gone(d, 2) == d2 && Gone(d, 3) == d3 && Gone(d, 4) == d4;
    assert Gone(d, 5) == d4 >> 1 && Gone(d, 6) == d4 >> 1 >> 1 && Gone(d, 7) == d4 >> 1 >> 1 >> 1;
  }

  lemma EightZeros(d: bv8)
    ensures d >> 1 >> 1 >> 1 >> 1 >> 1 >> 1 >> 1 >> 1 == 0
  {
  }

  lemma TurnIsFeeds(c: bv8, d: bv8)
    ensures Turn(Xor(c, d)) == FeedAll(c, Low(d, 8))
  {
    hide Feed, Xor, Shift, Bit, Turn;
    ShiftsAreFeeds(c, d, 8);
    EightShifts(Xor(c, d));
    AllGone(d);
    XorZero(FeedAll(c, Low(d, 8)), 0);
  }

  lemma FirstByte(word: Frame)
    requires word != []
    ensures Bits(word) == Low(word[0], 8) + Bits(word[1..])
  {
    hide Bit;
    forall k | 8 <= k < 8 * |word|
      ensures BitAt(word, k) == BitAt(word[1..], k - 8)
    {
      assert (k - 8) / 8 == k / 8 - 1 && (k - 8) % 8 == k % 8;
    }
  }

  /** The check of a word, byte by byte, is that of its bits, one by one. */
  lemma {:induction false} CheckIsFeed(c: bv8, word: Frame)
    ensures Check(c, word) == FeedAll(c, Bits(word))
    decreases |word|
  {
    hide Feed, Xor, Turn, Bit;
    if word != [] {
      FirstByte(word);
      FeedAppend(c, Low(word[0], 8), Bits(word[1..]));
      TurnIsFeeds(c, word[0]);
      CheckIsFeed(Turn(Xor(c, word[0])), word[1..]);
    }
  }

  // ---------------------------------------------------------------- the register

  /** The register holds what the bits fed back so far still have to add. */
  predicate Holds(c: bv8, q: seq<bool>) {
    forall j :: 0 <= j < 8 ==> (Bit(c, j) <==> Pending(q, j))
  }

  predicate Pending(q: seq<bool>, j: int) {
    At(q, |q| + j - 3) != (At(q, |q| + j - 4) != At(q, |q| + j - 8))
  }

  lemma BitsOfFeed(c: bv8, b: bool)
    ensures forall j :: 0 <= j < 8 ==>
              (Bit(Feed(c, b), j) <==> (j < 7 && Bit(c, j + 1)) != (Fed(c, b) && (j == 2 || j == 3 || j == 7)))
  {
    forall j | 0 <= j < 8
      ensures Bit(Feed(c, b), j) <==> (j < 7 && Bit(c, j + 1)) != (Fed(c, b) && (j == 2 || j == 3 || j == 7))
    {
      BitOfFeed(c, b, j);
    }
  }

  lemma BitOfFeed(c: bv8, b: bool, j: nat)
    requires j < 8
    ensures Bit(Feed(c, b), j) <==> (j < 7 && Bit(c, j + 1)) != (Fed(c, b) && (j == 2 || j == 3 || j == 7))
  {
    MasksOfFeed(c, b);
  }

  lemma MasksOfFeed(c: bv8, b: bool)
    ensures var r, f := Feed(c, b), (c & 0x01 != 0) != b;
            && (r & 0x01 != 0) == (c & 0x02 != 0) && (r & 0x02 != 0) == (c & 0x04 != 0)
            && (r & 0x04 != 0) == ((c & 0x08 != 0) != f) && (r & 0x08 != 0) == ((c & 0x10 != 0) != f)
            && (r & 0x10 != 0) == (c & 0x20 != 0) && (r & 0x20 != 0) == (c & 0x40 != 0)
            && (r & 0x40 != 0) == (c & 0x80 != 0) && (r & 0x80 != 0) == f
  {
  }

  lemma PendingNext(q: seq<bool>, f: bool, j: nat)
    requires j < 8
    ensures Pending(q + [f], j) <==> (j < 7 && Pending(q, j + 1)) != (f && (j == 2 || j == 3 || j == 7))
  {
    hide At;
    OneMore(q, f, |q| + 1 + j - 3);
    OneMore(q, f, |q| + 1 + j - 4);
    OneMore(q, f, |q| + 1 + j - 8);
    Beyond(q, |q| + 1 + j - 3);
    Beyond(q, |q| + 1 + j - 4);
    Beyond(q, |q| + 1 + j - 8);
  }

  lemma OneMore(q: seq<bool>, f: bool, s: int)
    ensures At(q + [f], s) <==> At(q, s) || (s == |q| && f)
  {
  }

  lemma Beyond(q: seq<bool>, s: int)
    ensures s >= |q| || s < 0 ==> !At(q, s)
  {
  }

  lemma FeedHolds(c: bv8, q: seq<bool>, b: bool)
    requires Holds(c, q)
    ensures Holds(Feed(c, b), q + [Fed(c, b)])
  {
    hide Bit, Feed, Pending, Fed;
    BitsOfFeed(c, b);
    forall j | 0 <= j < 8
      ensures Bit(Feed(c, b), j) <==> Pending(q + [Fed(c, b)], j)
    {
      PendingNext(q, Fed(c, b), j);
    }
  }

  lemma NothingHeld()
    ensures Holds(0, [])
  {
    forall j | 0 <= j < 8
      ensures !Bit(0, j)
    {
      NoBit(j);
    }
  }

  lemma NoBit(j: nat)
    requires j < 8
    ensures !Bit(0, j)
  {
  }

  /** The bits fed are the product of the bits fed back, up to where they go. */
  lemma {:induction false} FeedsAreProducts(bits: seq<bool>)
    ensures Holds(FeedAll(0, bits), Quotient(bits))
    ensures forall k :: 0 <= k < |bits| ==> (bits[k] <==> Product(Quotient(bits), k))
    decreases |bits|
  {
    hide Feed, Holds, Product, Bit, Fed;
    if bits == [] {
      NothingHeld();
    } else {
      var n := |bits| - 1;
      var init, q := bits[..n], Quotient(bits[..n]);
      FeedsAreProducts(init);
      FeedHolds(FeedAll(0, init), q, bits[n]);
      forall k | 0 <= k < |bits|
        ensures bits[k] <==> Product(Quotient(bits), k)
      {
        LastProduct(FeedAll(0, init), q, bits[n], k);
        assert k < n ==> bits[k] == init[k];
      }
    }
  }

  lemma LastProduct(c: bv8, q: seq<bool>, b: bool, k: nat)
    requires Holds(c, q) && k <= |q|
    ensures k < |q| ==> (Product(q + [Fed(c, b)], k) <==> Product(q, k))
    ensures k == |q| ==> (Product(q + [Fed(c, b)], k) <==> b)
  {
    assert Bit(c, 0) <==> Pending(q, 0);
    var f := Fed(c, b);
    hide At, Bit;
    OneMore(q, f, k);
    OneMore(q, f, k - 3);
    OneMore(q, f, k - 4);
    OneMore(q, f, k - 8);
    Beyond(q, k);
  }

  /** The register is empty exactly if the last eight bits fed back are zeros. */
  lemma EmptyRegister(c: bv8, q: seq<bool>)
    requires Holds(c, q)
    ensures c == 0 <==> forall s :: |q| - 8 <= s < |q| ==> !At(q, s)
  {
    hide Bit, At;
    if c == 0 {
      NothingPending(q, c);
    }
    if forall s :: |q| - 8 <= s < |q| ==> !At(q, s) {
      forall j | 0 <= j < 8
        ensures !Bit(c, j)
      {
        Beyond(q, |q| + j - 3);
        Beyond(q, |q| + j - 4);
        assert !Pending(q, j);
      }
      NoBits(c);
    }
  }

  lemma NothingPending(q: seq<bool>, c: bv8)
    requires Holds(c, q) && c == 0
    ensures forall s :: |q| - 8 <= s < |q| ==> !At(q, s)
  {
    hide Bit, At;
    forall j | 0 <= j < 8
      ensures !Pending(q, j)
    {
      NoBit(j);
    }
    LastIsZero(q, 7);
    LastIsZero(q, 6);
    LastIsZero(q, 5);
    LastIsZero(q, 4);
    LastIsZero(q, 3);
    LastIsZero(q, 2);
    LastIsZero(q, 1);
    LastIsZero(q, 0);
  }

  lemma LastIsZero(q: seq<bool>, j: nat)
    requires j < 8 && !Pending(q, j) && forall s :: |q| + j - 8 < s < |q| ==> !At(q, s)
    ensures forall s :: |q| + j - 8 <= s < |q| ==> !At(q, s)
  {
    hide At;
    Beyond(q, |q| + j - 3);
    Beyond(q, |q| + j - 4);
  }

  // ------------------------------------------------------------------ the theorem

  lemma SamePadded(p: seq<bool>, q: seq<bool>, k: int)
    requires forall s :: At(p, s) <==> At(q, s)
    ensures Product(p, k) <==> Product(q, k)
  {
  }

  /** A product determines what was multiplied. */
  lemma {:induction false} OneQuotient(bits: seq<bool>, q: seq<bool>, s: nat)
    requires forall k :: 0 <= k < |bits| ==> (bits[k] <==> Product(q, k))
    requires s < |bits|
    ensures At(q, s) <==> At(Quotient(bits), s)
    decreases s
  {
    hide At;
    FeedsAreProducts(bits);
    var r := Quotient(bits);
    assert Product(q, s) <==> Product(r, s);
    Before(q, r, bits, s - 3);
    Before(q, r, bits, s - 4);
    Before(q, r, bits, s - 8);
  }

  lemma {:induction false} Before(q: seq<bool>, r: seq<bool>, bits: seq<bool>, s: int)
    requires forall k :: 0 <= k < |bits| ==> (bits[k] <==> Product(q, k))
    requires r == Quotient(bits) && s < |bits|
    ensures At(q, s) <==> At(r, s)
    decreases s + 1, 1
  {
    if s >= 0 {
      OneQuotient(bits, q, s);
    }
  }

  /** A word is accepted exactly if its bits are a multiple of the generator. */
  lemma AcceptedIffMultiple(word: Frame)
    requires word != []
    ensures Accepted(word) <==> exists q :: IsMultiple(word, q)
  {
    var bits := Bits(word);
    var r, n := Quotient(bits), 8 * |word| - 8;
    AcceptedIffZero(word);
    CheckIsFeed(0, word);
    FeedsAreProducts(bits);
    EmptyRegister(FeedAll(0, bits), r);
    if Accepted(word) {
      CutZeros(word, r);
      assert IsMultiple(word, r[..n]);
    }
    if q :| IsMultiple(word, q) {
      ProductOfMultiple(word, q);
      forall s | n <= s < |r|
        ensures !At(r, s)
      {
        OneQuotient(bits, q, s);
        Beyond(q, s);
      }
    }
  }

  lemma ProductOfMultiple(word: Frame, q: seq<bool>)
    requires IsMultiple(word, q)
    ensures forall k :: 0 <= k < |Bits(word)| ==> (Bits(word)[k] <==> Product(q, k))
  {
    hide Product, BitAt;
  }

  lemma CutZeros(word: Frame, r: seq<bool>)
    requires word != [] && |r| == 8 * |word| && forall s :: |r| - 8 <= s < |r| ==> !At(r, s)
    requires forall k :: 0 <= k < |Bits(word)| ==> (Bits(word)[k] <==> Product(r, k))
    ensures IsMultiple(word, r[..8 * |word| - 8])
  {
    hide BitAt;
    var n := 8 * |word| - 8;
    var q := r[..n];
    forall s: int
      ensures At(q, s) <==> At(r, s)
    {
    }
    hide Product, At;
    forall k | 0 <= k < 8 * |word|
      ensures BitAt(word, k) <==> Product(q, k)
    {
      SamePadded(q, r, k);
      assert Bits(word)[k] == BitAt(word, k);
    }
  }

  /** What goes over the line for a payload: a start byte, the low eight bits of the length, and the payload with
      the one check byte that makes it a multiple of the generator. */
  lemma PacketIsMultiple(payload: Frame, check: bv8)
    ensures var p := Packet(payload);
            && |p| == |payload| + 3 && p[0] == 0xD5 && p[1] == (|payload| % 256) as bv8 && p[2..|payload| + 2] == payload
    ensures Packet(payload)[|payload| + 2] == check <==> exists q :: IsMultiple(payload + [check], q)
  {
    hide *;
    AcceptedIffMultiple(payload + [check]);
    PacketParts(payload, check);
  }

  lemma PacketParts(payload: Frame, check: bv8)
    ensures var p := Packet(payload);
            && |p| == |payload| + 3 && p[0] == 0xD5 && p[1] == (|payload| % 256) as bv8 && p[2..|payload| + 2] == payload
            && (p[|payload| + 2] == check <==> Accepted(payload + [check]))
  {
    ThreeParts(0xD5, (|payload| % 256) as bv8, payload, Check(0, payload));
    ThreeParts(0, 0, payload, check);
    hide Check;
  }

  lemma ThreeParts(a: bv8, b: bv8, payload: Frame, c: bv8)
    ensures var p := [a, b] + payload + [c];
            |p| == |payload| + 3 && p[0] == a && p[1] == b && p[2..|payload| + 2] == payload && p[|payload| + 2] == c
    ensures (payload + [c])[..|payload|] == payload && (payload + [c])[|payload|] == c
  {
  }

  /** The space query on the line. */
  lemma QueryOnTheLine()
    ensures Packet([2]) == [0xD5, 1, 2, 0xBC]
  {
    CheckOfQuery();
    QueryParts([2]);
  }

  lemma QueryParts(payload: Frame)
    requires payload == [2] && Check(0, payload) == 0xBC
    ensures Packet(payload) == [0xD5, 1, 2, 0xBC]
  {
    hide Check;
    assert |payload| % 256 == 1 && 1 as bv8 == 1;
    assert [0xD5, 1] + payload + [0xBC] == [0xD5, 1, 2, 0xBC];
  }

  lemma CheckOfQuery()
    ensures Check(0, [2]) == 0xBC
  {
    TurnOfTwo();
    hide Turn, Xor;
    CheckOne(0, 2);
  }

  lemma TurnOfTwo()
    ensures Turn(Xor(0, 2)) == 0xBC
  {
  }
}
