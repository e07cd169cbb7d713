/** The wire format of commands between frontends and server (src/ipc_shared.c, src/utils.c):
    a 16-bit code, a 16-bit argument count, and length-prefixed arguments, all big-endian. */
module Ipc {
  import opened Common
  import opened Strings

  /** A byte, as the C code's `char`. */
  type Byte = c: char | c as int < 256 witness '\0'
  type Bytes = seq<Byte>

  function ByteAt(v: int, unit: int): Byte
    requires unit > 0
  {
    (v / unit % 256) as char
  }

  /** The low 16 bits of a number, big-endian. */
  function Short(v: int): (b: Bytes)
    ensures |b| == 2
  {
    [ByteAt(v, 0x100), ByteAt(v, 1)]
  }

  /** The low 32 bits of a number, big-endian. */
  function Long(v: int): (b: Bytes)
    ensures |b| == 4
  {
    [ByteAt(v, 0x100_0000), ByteAt(v, 0x1_0000), ByteAt(v, 0x100), ByteAt(v, 1)]
  }

  function ReadShort(buf: Bytes, p: nat): (v: nat)
    requires p + 2 <= |buf|
    ensures v < 0x1_0000
  {
    buf[p] as int * 0x100 + buf[p + 1] as int
  }

  function ReadLong(buf: Bytes, p: nat): (v: nat)
    requires p + 4 <= |buf|
    ensures v < 0x1_0000_0000
  {
    buf[p] as int * 0x100_0000 + buf[p + 1] as int * 0x1_0000 + buf[p + 2] as int * 0x100 + buf[p + 3] as int
  }

  function ToInt16(v: nat): int
    requires v < 0x1_0000
  {
    if v < 0x8000 then v else v - 0x1_0000
  }

  function ToInt32(v: nat): int
    requires v < 0x1_0000_0000
  {
    if v < 0x8000_0000 then v else v - 0x1_0000_0000
  }

  lemma ShortReadsBack(v: int, buf: Bytes, p: nat)
    requires p + 2 <= |buf| && buf[p..p + 2] == Short(v)
    ensures ReadShort(buf, p) == v % 0x1_0000
  {
    assert buf[p] == buf[p..p + 2][0] && buf[p + 1] == buf[p..p + 2][1];
  }

  lemma DivideTwice(v: int)
    ensures v / 0x1_0000 == v / 0x100 / 0x100
    ensures v / 0x100_0000 == v / 0x1_0000 / 0x100
  {
  }

  lemma LowTwo(x: int)
    ensures x % 0x1_0000 == 0x100 * (x / 0x100 % 0x100) + x % 0x100
  {
    var k, r := x / 0x1_0000, x % 0x1_0000;
    AddMultiple(r % 0x100, 0x100 * k + r / 0x100);
    AddMultiple(r / 0x100, k);
  }

  lemma LowThree(x: int)
    ensures x % 0x100_0000 == 0x100 * (x / 0x100 % 0x1_0000) + x % 0x100
  {
    var k, r := x / 0x100_0000, x % 0x100_0000;
    AddMultiple(r % 0x100, 0x1_0000 * k + r / 0x100);
    AddShorts(r / 0x100, k);
  }

  lemma LowFour(x: int)
    ensures x % 0x1_0000_0000 == 0x100 * (x / 0x100 % 0x100_0000) + x % 0x100
  {
    var k, r := x / 0x1_0000_0000, x % 0x1_0000_0000;
    AddMultiple(r % 0x100, 0x100_0000 * k + r / 0x100);
    AddThrees(r / 0x100, k);
  }

  lemma AddShorts(x: nat, q: int)
    ensures (x + 0x1_0000 * q) % 0x1_0000 == x % 0x1_0000
  {
  }

  lemma AddThrees(x: nat, q: int)
    ensures (x + 0x100_0000 * q) % 0x100_0000 == x % 0x100_0000
  {
  }

  lemma FourBytes(v: int)
    ensures (v / 0x100_0000 % 0x100) * 0x100_0000 + (v / 0x1_0000 % 0x100) * 0x1_0000 + (v / 0x100 % 0x100) * 0x100 + v % 0x100
         == v % 0x1_0000_0000
  {
    var q1, q2 := v / 0x100, v / 0x1_0000;
    DivideTwice(v);
    LowFour(v);
    LowThree(q1);
    LowTwo(q2);
  }

  lemma LongReadsBack(v: int, buf: Bytes, p: nat)
    requires p + 4 <= |buf| && buf[p..p + 4] == Long(v)
    ensures ReadLong(buf, p) == v % 0x1_0000_0000
  {
    FourBytes(v);
    var b := buf[p..p + 4];
    assert buf[p] == b[0] && buf[p + 1] == b[1] && buf[p + 2] == b[2] && buf[p + 3] == b[3];
    BytesOfLong(v);
    hide Long, ByteAt;
  }

  lemma BytesOfLong(v: int)
    ensures Long(v)[0] as int == v / 0x100_0000 % 0x100 && Long(v)[1] as int == v / 0x1_0000 % 0x100
    ensures Long(v)[2] as int == v / 0x100 % 0x100 && Long(v)[3] as int == v % 0x100
  {
  }

  /** Numbers are stored with the highest byte first. */
  lemma BigEndian(v: int)
    ensures var b := Short(v); b[0] as int * 0x100 + b[1] as int == v % 0x1_0000
    ensures var b := Long(v); b[0] as int * 0x100_0000 + b[1] as int * 0x1_0000 + b[2] as int * 0x100 + b[3] as int == v % 0x1_0000_0000
  {
    ShortReadsBack(v, Short(v), 0);
    LongReadsBack(v, Long(v), 0);
  }

  /** A 16-bit argument comes back as it was given exactly if it is in the signed range; -1 is. */
  lemma ShortRoundTrip(v: int)
    ensures ToInt16(ReadShort(Short(v), 0)) == v <==> -0x8000 <= v < 0x8000
  {
    ShortReadsBack(v, Short(v), 0);
  }

  lemma LongRoundTrip(v: int)
    ensures ToInt32(ReadLong(Long(v), 0)) == v <==> -0x8000_0000 <= v < 0x8000_0000
  {
    LongReadsBack(v, Long(v), 0);
  }

  // ------------------------------------------------------------------- encoding

  datatype Command = Command(code: int, args: seq<Bytes>)

  function EncodeArg(arg: Bytes): Bytes {
    Long(|arg|) + arg
  }

  function EncodeArgs(args: seq<Bytes>): Bytes {
    if args == [] then [] else EncodeArg(args[0]) + EncodeArgs(args[1..])
  }

  /** The count field holds the argument count modulo 2^16. */
  function Encode(c: Command): (buf: Bytes)
    ensures |buf| >= 4
  {
    Short(c.code) + Short(|c.args|) + EncodeArgs(c.args)
  }

  /** No argument is longer than its length field can say. */
  predicate Sendable(args: seq<Bytes>) {
    forall i :: 0 <= i < |args| ==> |args[i]| < 0x1_0000_0000
  }

  lemma {:induction false} EncodeArgsAppend(a: seq<Bytes>, b: seq<Bytes>)
    ensures EncodeArgs(a + b) == EncodeArgs(a) + EncodeArgs(b)
  {
    if a == [] {
      assert a + b == b;
    } else {
      assert (a + b)[0] == a[0] && (a + b)[1..] == a[1..] + b;
      EncodeArgsAppend(a[1..], b);
      Regroup(EncodeArg(a[0]), EncodeArgs(a[1..]), EncodeArgs(b));
    }
  }

  /** What ipc_cmd_add_arg makes of a buffer: the argument at the end, the count one up. */
  function WithArg(buf: Bytes, arg: Bytes): Bytes
    requires |buf| >= 4
  {
    buf[..2] + Short(ReadShort(buf, 2) + 1) + buf[4..] + EncodeArg(arg)
  }

  lemma EncodeGrows(code: int, args: seq<Bytes>, arg: Bytes)
    ensures Encode(Command(code, args + [arg])) == WithArg(Encode(Command(code, args)), arg)
  {
    var buf := Encode(Command(code, args));
    HeaderParts(Short(code), Short(|args|), EncodeArgs(args));
    ShortReadsBack(|args|, buf, 2);
    SameCount(|args|);
    EncodeArgsAppend(args, [arg]);
    OneArg(arg);
    Regroup(Short(code) + Short(|args| + 1), EncodeArgs(args), EncodeArg(arg));
  }

  /** The bytes of a command without arguments: its code and a count of 0, highest bytes first. */
  lemma EmptyLayout(code: int)
    ensures var buf := Encode(Command(code, []));
            && |buf| == 4
            && buf[0] as int * 0x100 + buf[1] as int == code % 0x1_0000
            && buf[2] as int * 0x100 + buf[3] as int == 0
  {
    BigEndian(code);
    BigEndian(0);
    HeaderParts(Short(code), Short(0), EncodeArgs([]));
  }

  /** And what one more argument does to the bytes of a command: the count goes up, and the length of the
      argument, in four bytes, and the argument follow at the end. */
  lemma OneMoreLayout(code: int, args: seq<Bytes>, arg: Bytes)
    ensures var before, buf := Encode(Command(code, args)), Encode(Command(code, args + [arg]));
            var n := |before|;
            && |buf| == n + 4 + |arg|
            && buf[..2] == before[..2] && buf[4..n] == before[4..n]
            && buf[2] as int * 0x100 + buf[3] as int == (|args| + 1) % 0x1_0000
            && buf[n] as int * 0x100_0000 + buf[n + 1] as int * 0x1_0000 + buf[n + 2] as int * 0x100 + buf[n + 3] as int
               == |arg| % 0x1_0000_0000
            && buf[n + 4..] == arg
  {
    hide Short, Long, ReadShort, EncodeArgs, EncodeArg;
    var before, buf := Encode(Command(code, args)), Encode(Command(code, args + [arg]));
    HeaderParts(Short(code), Short(|args|), EncodeArgs(args));
    HeaderParts(Short(code), Short(|args + [arg]|), EncodeArgs(args + [arg]));
    EncodeArgsAppend(args, [arg]);
    OneArg(arg);
    BigEndian(|args| + 1);
    BigEndian(|arg|);
    ArgParts(arg);
    assert buf == before[..2] + Short(|args| + 1) + (EncodeArgs(args) + EncodeArg(arg));
    assert buf[2] == buf[2..4][0] && buf[3] == buf[2..4][1];
    assert buf[|before|..] == EncodeArg(arg);
    assert forall i :: 0 <= i < 4 ==> buf[|before| + i] == EncodeArg(arg)[i];
  }

  lemma ArgParts(arg: Bytes)
    ensures |EncodeArg(arg)| == 4 + |arg| && EncodeArg(arg)[4..] == arg
    ensures forall i :: 0 <= i < 4 ==> EncodeArg(arg)[i] == Long(|arg|)[i]
  {
    hide Long;
  }

  lemma HeaderParts(a: Bytes, b: Bytes, rest: Bytes)
    requires |a| == 2 && |b| == 2
    ensures (a + b + rest)[..2] == a && (a + b + rest)[2..4] == b && (a + b + rest)[4..] == rest
  {
  }

  lemma SameCount(n: nat)
    ensures Short(n % 0x1_0000 + 1) == Short(n + 1)
  {
    var m, q := n % 0x1_0000 + 1, n / 0x1_0000;
    assert n + 1 == m + 0x100 * (0x100 * q);
    AddMultiple(m, 0x100 * q);
    AddMultiple(m / 0x100, q);
  }

  lemma AddMultiple(x: nat, q: int)
    ensures (x + 0x100 * q) / 0x100 == x / 0x100 + q
    ensures (x + 0x100 * q) % 0x100 == x % 0x100
  {
  }

  lemma OneArg(arg: Bytes)
    ensures EncodeArgs([arg]) == EncodeArg(arg)
  {
    assert [arg][1..] == [];
  }

  /** Stores a 16-bit number in place. */
  method StoreShort(p: array<Byte>, at: nat, v: int)
    requires at + 2 <= p.Length
    modifies p
    ensures p[..] == old(p[..at]) + Short(v) + old(p[at + 2..])
  {
    p[at], p[at + 1] := ByteAt(v, 0x100), ByteAt(v, 1);
  }

  /** Stores a 32-bit number in place. */
  method StoreLong(p: array<Byte>, at: nat, v: int)
    requires at + 4 <= p.Length
    modifies p
    ensures p[..] == old(p[..at]) + Long(v) + old(p[at + 4..])
  {
    p[at], p[at + 1], p[at + 2], p[at + 3] := ByteAt(v, 0x100_0000), ByteAt(v, 0x1_0000), ByteAt(v, 0x100), ByteAt(v, 1);
  }

  /** A command without arguments in a buffer of four bytes. */
  method CmdSet(code: int) returns (buf: array<Byte>)
    ensures fresh(buf) && buf[..] == Encode(Command(code, []))
  {
    buf := new Byte[4](_ => '\0');
    StoreShort(buf, 0, code);
    StoreShort(buf, 2, 0);
  }

  /** A larger copy of a buffer; the new bytes have no particular value. */
  method Realloc(buf: array<Byte>, n: nat) returns (t: array<Byte>)
    requires buf.Length <= n
    ensures fresh(t) && t.Length == n && t[..buf.Length] == buf[..]
  {
    t := new Byte[n](i => '\0');
    forall i | 0 <= i < buf.Length {
      t[i] := buf[i];
    }
  }

  method Memcpy(p: array<Byte>, at: nat, bytes: Bytes)
    requires at + |bytes| <= p.Length
    modifies p
    ensures p[..] == old(p[..at]) + bytes + old(p[at + |bytes|..])
  {
    forall i | 0 <= i < |bytes| {
      p[at + i] := bytes[i];
    }
  }

  /** Adds an argument; the buffer is reallocated, so the result is a new array. A missing argument is stored as an empty one. */
  method CmdAddArg(buf: array<Byte>, arg: Option<Bytes>) returns (t: array<Byte>)
    requires buf.Length >= 4
    ensures fresh(t) && t[..] == WithArg(old(buf[..]), if arg.Some? then arg.value else [])
  {
    var bytes := if arg.Some? then arg.value else [];
    var n := buf.Length;
    t := Realloc(buf, n + 4 + |bytes|);
    ghost var t0 := t[..];
    StoreLong(t, n, |bytes|);
    ghost var t1 := t[..];
    Memcpy(t, n + 4, bytes);
    Written(buf[..], t0, t1, t[..], bytes);
    AddedArg(buf[..], bytes, t[..]);
    hide WithArg, EncodeArg;
    StoreShort(t, 2, ReadShort(t[..], 2) + 1);
  }

  lemma Written(buf: Bytes, t0: Bytes, t1: Bytes, t2: Bytes, bytes: Bytes)
    requires |t0| == |buf| + 4 + |bytes| && t0[..|buf|] == buf
    requires t1 == t0[..|buf|] + Long(|bytes|) + t0[|buf| + 4..]
    requires t2 == t1[..|buf| + 4] + bytes + t1[|buf| + 4 + |bytes|..]
    ensures t2 == buf + EncodeArg(bytes)
  {
    assert t1[..|buf| + 4] == buf + Long(|bytes|);
    assert t2 == buf + Long(|bytes|) + bytes;
  }

  lemma AddedArg(buf: Bytes, arg: Bytes, t: Bytes)
    requires |buf| >= 4 && t == buf + EncodeArg(arg)
    ensures t[..2] + Short(ReadShort(t, 2) + 1) + t[4..] == WithArg(buf, arg)
  {
    assert t[2] == buf[2] && t[3] == buf[3];
    assert t[..2] == buf[..2] && t[4..] == buf[4..] + EncodeArg(arg);
    Regroup(buf[..2] + Short(ReadShort(buf, 2) + 1), buf[4..], EncodeArg(arg));
  }

  /** The printf-style arguments of ipc_construct_cmd: 16- and 32-bit numbers, C strings and blobs. */
  datatype Arg = Word(value: int) | Wide(value: int) | Text(s: Bytes) | Blob(b: Option<Bytes>)

  function ArgBytes(a: Arg): Bytes {
    match a
    case Word(v) => Short(v)
    case Wide(v) => Long(v)
    case Text(s) => UpToNul(s)
    case Blob(b) => if b.Some? then b.value else []
  }

  function AllArgBytes(args: seq<Arg>): (bs: seq<Bytes>)
    ensures |bs| == |args|
  {
    seq(|args|, i requires 0 <= i < |args| => ArgBytes(args[i]))
  }

  method ConstructCmd(code: int, args: seq<Arg>) returns (cmd: array<Byte>)
    ensures fresh(cmd) && cmd[..] == Encode(Command(code, AllArgBytes(args)))
  {
    cmd := CmdSet(code);
    var i := 0;
    assert AllArgBytes(args)[..0] == [];
    while i < |args|
      invariant i <= |args| && fresh(cmd)
      invariant cmd[..] == Encode(Command(code, AllArgBytes(args)[..i]))
    {
      EncodeGrows(code, AllArgBytes(args)[..i], ArgBytes(args[i]));
      assert AllArgBytes(args)[..i + 1] == AllArgBytes(args)[..i] + [ArgBytes(args[i])];
      match args[i] {
        case Word(v) => cmd := CmdAddArg(cmd, Some(Short(v)));
        case Wide(v) => cmd := CmdAddArg(cmd, Some(Long(v)));
        case Text(s) => cmd := CmdAddArg(cmd, Some(UpToNul(s)));
        case Blob(b) => cmd := CmdAddArg(cmd, b);
      }
      i := i + 1;
    }
    assert AllArgBytes(args)[..i] == AllArgBytes(args);
  }

  // ------------------------------------------------------------------- decoding

  /** Where n arguments that start at p end, if the buffer holds them all. */
  function ArgsEnd(buf: Bytes, p: nat, n: nat): (e: Option<nat>)
    ensures e.Some? && p <= |buf| ==> p <= e.value <= |buf|
    decreases n
  {
    if n == 0 then Some(p)
    else if |buf| < p + 4 then None
    else
      var al := ReadLong(buf, p);
      if |buf| < p + 4 + al then None else ArgsEnd(buf, p + 4 + al, n - 1)
  }

  /** The size of the command at the start of the buffer, or 0 if it is not complete. */
  function Complete(buf: Bytes): (l: nat)
    ensures l <= |buf| && (l > 0 ==> l >= 4)
  {
    if |buf| < 4 then 0 else
      var e := ArgsEnd(buf, 4, ReadShort(buf, 2));
      if e.Some? then e.value else 0
  }

  method CmdIsComplete(buf: Bytes) returns (l: nat)
    ensures l == Complete(buf)
  {
    if |buf| < 4 {
      return 0;
    }
    var argsleft := ReadShort(buf, 2);
    var p := 4;
    while argsleft > 0
      invariant 4 <= p <= |buf| && 0 <= argsleft
      invariant ArgsEnd(buf, p, argsleft) == ArgsEnd(buf, 4, ReadShort(buf, 2))
    {
      if |buf| < p + 4 {
        return 0;
      }
      var al := ReadLong(buf, p);
      if |buf| < p + 4 + al {
        return 0;
      }
      argsleft := argsleft - 1;
      p := p + 4 + al;
    }
    return p;
  }

  /** Only the bytes of the command itself decide where it ends. */
  lemma {:induction false} EndIsLocal(buf: Bytes, other: Bytes, p: nat, n: nat)
    requires p <= |buf| && ArgsEnd(buf, p, n).Some?
    requires ArgsEnd(buf, p, n).value <= |other| && other[..ArgsEnd(buf, p, n).value] == buf[..ArgsEnd(buf, p, n).value]
    ensures ArgsEnd(other, p, n) == ArgsEnd(buf, p, n)
    decreases n
  {
    if n > 0 {
      var e := ArgsEnd(buf, p, n).value;
      var al := ReadLong(buf, p);
      assert p + 4 + al <= e;
      assert forall i :: 0 <= i < e ==> other[i] == other[..e][i] && buf[i] == buf[..e][i];
      EndIsLocal(buf, other, p + 4 + al, n - 1);
    }
  }

  /** Cut short, the arguments are not complete. */
  lemma {:induction false} NoneWhenCut(buf: Bytes, p: nat, n: nat, k: nat)
    requires p <= k <= |buf| && ArgsEnd(buf, p, n).Some? && k < ArgsEnd(buf, p, n).value
    ensures ArgsEnd(buf[..k], p, n).None?
    decreases n
  {
    if n > 0 && p + 4 <= k {
      var al := ReadLong(buf, p);
      assert ReadLong(buf[..k], p) == al;
      if p + 4 + al <= k {
        NoneWhenCut(buf, p + 4 + al, n - 1, k);
      }
    }
  }

  lemma {:induction false} EndOfEncoded(pre: Bytes, args: seq<Bytes>, post: Bytes)
    requires Sendable(args)
    ensures ArgsEnd(pre + EncodeArgs(args) + post, |pre|, |args|) == Some(|pre| + |EncodeArgs(args)|)
    decreases |args|
  {
    var buf := pre + EncodeArgs(args) + post;
    if args != [] {
      var pre' := pre + EncodeArg(args[0]);
      FirstEncoded(pre, args, post);
      EndOfEncoded(pre', args[1..], post);
    }
  }

  lemma FirstEncoded(pre: Bytes, args: seq<Bytes>, post: Bytes)
    requires Sendable(args) && args != []
    ensures var buf := pre + EncodeArgs(args) + post;
            && buf == (pre + EncodeArg(args[0])) + EncodeArgs(args[1..]) + post
            && |pre| + 4 + |args[0]| <= |buf|
            && ReadLong(buf, |pre|) == |args[0]|
            && buf[|pre| + 4..|pre| + 4 + |args[0]|] == args[0]
  {
    hide Long, ReadLong;
    var l, a, rest := Long(|args[0]|), args[0], EncodeArgs(args[1..]);
    FiveParts(pre, l, a, rest, post);
    Inside(pre, l, a, rest + post);
    LongReadsBack(|a|, pre + l + a + (rest + post), |pre|);
  }

  lemma FiveParts(pre: Bytes, l: Bytes, a: Bytes, rest: Bytes, post: Bytes)
    ensures pre + (l + a + rest) + post == pre + l + a + (rest + post)
    ensures pre + (l + a + rest) + post == (pre + (l + a)) + rest + post
  {
  }

  lemma Inside(a: Bytes, b: Bytes, c: Bytes, d: Bytes)
    ensures (a + b + c + d)[|a|..|a| + |b|] == b
    ensures (a + b + c + d)[|a| + |b|..|a| + |b| + |c|] == c
  {
  }

  /** The n arguments that start at p. */
  function ParseArgs(buf: Bytes, p: nat, n: nat): (args: seq<Bytes>)
    requires p <= |buf| && ArgsEnd(buf, p, n).Some?
    ensures |args| == n
    decreases n
  {
    if n == 0 then [] else
      var al := ReadLong(buf, p);
      [buf[p + 4..p + 4 + al]] + ParseArgs(buf, p + 4 + al, n - 1)
  }

  function ArgsOf(buf: Bytes): seq<Bytes>
    requires Complete(buf) > 0
  {
    ParseArgs(buf, 4, ReadShort(buf, 2))
  }

  lemma NextArg(buf: Bytes, p: nat, n: nat)
    requires p <= |buf| && n > 0 && ArgsEnd(buf, p, n).Some?
    ensures p + 4 <= |buf| && p + 4 + ReadLong(buf, p) <= ArgsEnd(buf, p, n).value <= |buf|
    ensures ArgsEnd(buf, p + 4 + ReadLong(buf, p), n - 1) == ArgsEnd(buf, p, n)
    ensures ParseArgs(buf, p, n) == [buf[p + 4..p + 4 + ReadLong(buf, p)]] + ParseArgs(buf, p + 4 + ReadLong(buf, p), n - 1)
  {
  }

  lemma NoMoreArgs(buf: Bytes, p: nat)
    requires p <= |buf|
    ensures ArgsEnd(buf, p, 0) == Some(p) && ParseArgs(buf, p, 0) == []
  {
  }

  lemma SameBytes(buf: Bytes, other: Bytes, e: nat, p: nat, q: nat)
    requires e <= |buf| && e <= |other| && other[..e] == buf[..e] && p + 4 <= q <= e
    ensures ReadLong(other, p) == ReadLong(buf, p) && other[p + 4..q] == buf[p + 4..q]
  {
    assert forall i :: 0 <= i < e ==> other[i] == other[..e][i] && buf[i] == buf[..e][i];
  }

  /** Only the bytes of the command itself decide what its arguments are. */
  lemma {:induction false} ParseIsLocal(buf: Bytes, other: Bytes, p: nat, n: nat)
    requires p <= |buf| && ArgsEnd(buf, p, n).Some?
    requires ArgsEnd(buf, p, n).value <= |other| && other[..ArgsEnd(buf, p, n).value] == buf[..ArgsEnd(buf, p, n).value]
    ensures ArgsEnd(other, p, n) == ArgsEnd(buf, p, n)
    ensures ParseArgs(other, p, n) == ParseArgs(buf, p, n)
    decreases n
  {
    hide *;
    EndIsLocal(buf, other, p, n);
    if n == 0 {
      NoMoreArgs(buf, p);
      NoMoreArgs(other, p);
    } else {
      NextArg(buf, p, n);
      NextArg(other, p, n);
      var q := p + 4 + ReadLong(buf, p);
      SameBytes(buf, other, ArgsEnd(buf, p, n).value, p, q);
      ParseIsLocal(buf, other, q, n - 1);
    }
  }

  lemma ParseStep(buf: Bytes, p: nat, arg: Bytes, more: seq<Bytes>)
    requires p + 4 + |arg| <= |buf| && ReadLong(buf, p) == |arg| && buf[p + 4..p + 4 + |arg|] == arg
    requires ArgsEnd(buf, p + 4 + |arg|, |more|).Some? && ParseArgs(buf, p + 4 + |arg|, |more|) == more
    ensures ArgsEnd(buf, p, |more| + 1) == ArgsEnd(buf, p + 4 + |arg|, |more|)
    ensures ParseArgs(buf, p, |more| + 1) == [arg] + more
  {
    hide *;
    EndStep(buf, p, |more| + 1);
    NextArg(buf, p, |more| + 1);
  }

  lemma EndStep(buf: Bytes, p: nat, n: nat)
    requires p + 4 <= |buf| && p + 4 + ReadLong(buf, p) <= |buf| && n > 0
    ensures ArgsEnd(buf, p, n) == ArgsEnd(buf, p + 4 + ReadLong(buf, p), n - 1)
  {
  }

  lemma {:induction false} ParseOfEncoded(pre: Bytes, args: seq<Bytes>, post: Bytes)
    requires Sendable(args)
    ensures ArgsEnd(pre + EncodeArgs(args) + post, |pre|, |args|) == Some(|pre| + |EncodeArgs(args)|)
    ensures ParseArgs(pre + EncodeArgs(args) + post, |pre|, |args|) == args
    decreases |args|
  {
    hide *;
    EndOfEncoded(pre, args, post);
    NoArgs();
    TailIsSendable(args);
    if args == [] {
      NoMoreArgs(pre + EncodeArgs(args) + post, |pre|);
    } else {
      EndOfEncoded(pre + EncodeArg(args[0]), args[1..], post);
      FirstEncoded(pre, args, post);
      ParseOfEncoded(pre + EncodeArg(args[0]), args[1..], post);
      EncodedLength(args[0]);
      ParseStep(pre + EncodeArgs(args) + post, |pre|, args[0], args[1..]);
      HeadAndTail(args);
    }
  }

  lemma NoArgs()
    ensures EncodeArgs([]) == []
  {
  }

  lemma TailIsSendable(args: seq<Bytes>)
    requires Sendable(args)
    ensures args != [] ==> Sendable(args[1..])
  {
  }

  lemma EncodedLength(arg: Bytes)
    ensures |EncodeArg(arg)| == 4 + |arg|
  {
  }

  lemma HeadAndTail(args: seq<Bytes>)
    requires args != []
    ensures args == [args[0]] + args[1..]
  {
  }

  lemma HeaderReads(code: int, count: nat, rest: Bytes)
    ensures var buf := Short(code) + Short(count) + rest;
            ReadShort(buf, 0) == code % 0x1_0000 && ReadShort(buf, 2) == count % 0x1_0000
  {
    var buf := Short(code) + Short(count) + rest;
    HeaderParts(Short(code), Short(count), rest);
    ShortReadsBack(code, buf, 0);
    ShortReadsBack(count, buf, 2);
  }

  lemma CompleteMeans(buf: Bytes, e: nat, args: seq<Bytes>)
    requires |buf| >= 4 && ArgsEnd(buf, 4, ReadShort(buf, 2)) == Some(e)
    requires ParseArgs(buf, 4, ReadShort(buf, 2)) == args
    ensures Complete(buf) == e > 0 && ArgsOf(buf) == args
  {
  }

  lemma EncodedHeader(c: Command, rest: Bytes)
    ensures ReadShort(Encode(c) + rest, 0) == c.code % 0x1_0000 && ReadShort(Encode(c) + rest, 2) == |c.args| % 0x1_0000
    ensures Encode(c) + rest == (Short(c.code) + Short(|c.args|)) + EncodeArgs(c.args) + rest
    ensures |Encode(c)| == 4 + |EncodeArgs(c.args)|
  {
    HeaderReads(c.code, |c.args|, EncodeArgs(c.args) + rest);
    Regroup(Short(c.code) + Short(|c.args|), EncodeArgs(c.args), rest);
  }

  /** Round trip: an encoded command is complete at exactly its own length whatever bytes follow,
      and its code and every argument read back. */
  lemma RoundTrip(c: Command, rest: Bytes)
    requires |c.args| < 0x1_0000 && Sendable(c.args)
    ensures Complete(Encode(c) + rest) == |Encode(c)|
    ensures ReadShort(Encode(c) + rest, 0) == c.code % 0x1_0000
    ensures ArgsOf(Encode(c) + rest) == c.args
  {
    hide *;
    EncodedHeader(c, rest);
    ParseOfEncoded(Short(c.code) + Short(|c.args|), c.args, rest);
    CompleteMeans(Encode(c) + rest, |Encode(c)|, c.args);
  }

  /** No proper prefix of an encoded command is complete. */
  lemma PrefixFree(c: Command, k: nat)
    requires |c.args| < 0x1_0000 && Sendable(c.args)
    requires k < |Encode(c)|
    ensures Complete(Encode(c)[..k]) == 0
  {
    var buf := Encode(c);
    RoundTrip(c, []);
    assert buf + [] == buf;
    if k >= 4 {
      assert ReadShort(buf[..k], 2) == ReadShort(buf, 2);
      NoneWhenCut(buf, 4, ReadShort(buf, 2), k);
    }
  }

  lemma {:induction false} EncodedSize(args: seq<Bytes>)
    ensures |EncodeArgs(args)| >= 4 * |args|
  {
    if args != [] {
      EncodedSize(args[1..]);
    }
  }

  /** The count field is what limits a command: it is complete at its own length exactly with at most 65535 arguments. */
  lemma CompleteIffCountFits(c: Command)
    requires Sendable(c.args)
    ensures Complete(Encode(c)) == |Encode(c)| <==> |c.args| < 0x1_0000
  {
    hide *;
    var n := |c.args| % 0x1_0000;
    var first, more := c.args[..n], c.args[n..];
    var header := Short(c.code) + Short(|c.args|);
    EncodedHeader(c, []);
    NoBytes(Encode(c));
    SplitArgs(c.args, n);
    EncodedSize(more);
    NoArgs();
    assert n == |c.args| ==> more == [];
    EndOfEncoded(header, first, EncodeArgs(more));
    Regroup(header, EncodeArgs(first), EncodeArgs(more));
    NoBytes(header + EncodeArgs(c.args));
    CompleteMeans(Encode(c), 4 + |EncodeArgs(first)|, ParseArgs(Encode(c), 4, n));
  }

  lemma NoBytes(b: Bytes)
    ensures b + [] == b
  {
  }

  lemma SplitArgs(args: seq<Bytes>, n: nat)
    requires n <= |args| && Sendable(args)
    ensures EncodeArgs(args) == EncodeArgs(args[..n]) + EncodeArgs(args[n..])
    ensures Sendable(args[..n])
  {
    hide EncodeArgs;
    assert args == args[..n] + args[n..];
    EncodeArgsAppend(args[..n], args[n..]);
  }

  lemma ShortOfRead(buf: Bytes, p: nat)
    requires p + 2 <= |buf|
    ensures Short(ReadShort(buf, p)) == buf[p..p + 2]
  {
    var v, a, b := ReadShort(buf, p), buf[p] as int, buf[p + 1] as int;
    assert v == 0x100 * a + b && v / 0x100 == a && v % 0x100 == b;
  }

  lemma LongParts(a: nat, b: nat, c: nat, d: nat)
    requires a < 0x100 && b < 0x100 && c < 0x100 && d < 0x100
    ensures var v := a * 0x100_0000 + b * 0x1_0000 + c * 0x100 + d;
            v / 0x100_0000 % 0x100 == a && v / 0x1_0000 % 0x100 == b && v / 0x100 % 0x100 == c && v % 0x100 == d
  {
    var ab, abc := 0x100 * a + b, 0x100 * (0x100 * a + b) + c;
    DivideTwice(0x100 * abc + d);
    AddMultiple(d, abc);
    AddMultiple(c, ab);
    AddMultiple(b, a);
  }

  lemma LongOfRead(buf: Bytes, p: nat)
    requires p + 4 <= |buf|
    ensures Long(ReadLong(buf, p)) == buf[p..p + 4]
  {
    LongParts(buf[p] as int, buf[p + 1] as int, buf[p + 2] as int, buf[p + 3] as int);
    BytesOfLong(ReadLong(buf, p));
    var b, l := buf[p..p + 4], Long(ReadLong(buf, p));
    hide Long, ByteAt;
    assert l[0] == b[0] && l[1] == b[1] && l[2] == b[2] && l[3] == b[3];
  }

  lemma EncodeFirst(buf: Bytes, p: nat, q: nat, e: nat, more: seq<Bytes>)
    requires p + 4 <= q <= e <= |buf| && ReadLong(buf, p) == q - p - 4
    requires EncodeArgs(more) == buf[q..e]
    ensures EncodeArgs([buf[p + 4..q]] + more) == buf[p..e]
  {
    var arg := buf[p + 4..q];
    LongOfRead(buf, p);
    assert ([arg] + more)[1..] == more;
    hide EncodeArgs, ReadLong, Long;
    assert buf[p..p + 4] + arg + buf[q..e] == buf[p..e];
  }

  lemma {:induction false} ReencodeArgs(buf: Bytes, p: nat, n: nat)
    requires p <= |buf| && ArgsEnd(buf, p, n).Some?
    ensures ArgsEnd(buf, p, n).value <= |buf| && EncodeArgs(ParseArgs(buf, p, n)) == buf[p..ArgsEnd(buf, p, n).value]
    ensures Sendable(ParseArgs(buf, p, n))
    decreases n
  {
    hide *;
    if n == 0 {
      NoMoreArgs(buf, p);
      NoArgs();
      NoneToSend();
    } else {
      NextArg(buf, p, n);
      var q := p + 4 + ReadLong(buf, p);
      ReencodeArgs(buf, q, n - 1);
      EncodeFirst(buf, p, q, ArgsEnd(buf, p, n).value, ParseArgs(buf, q, n - 1));
      OneMoreToSend(buf[p + 4..q], ParseArgs(buf, q, n - 1));
    }
  }

  lemma NoneToSend()
    ensures Sendable([])
  {
  }

  lemma OneMoreToSend(arg: Bytes, args: seq<Bytes>)
    requires |arg| < 0x1_0000_0000 && Sendable(args)
    ensures Sendable([arg] + args)
  {
  }

  /** The converse of the round trip: whatever is complete is the encoding of the command that is read from it. */
  lemma CompleteIsEncoded(buf: Bytes, c: Command)
    requires Complete(buf) > 0
    requires c == Command(ReadShort(buf, 0), ArgsOf(buf))
    ensures buf[..Complete(buf)] == Encode(c)
    ensures |c.args| < 0x1_0000 && Sendable(c.args)
  {
    OpenCommand(buf);
    hide *;
    ReencodeArgs(buf, 4, ReadShort(buf, 2));
    ShortOfRead(buf, 0);
    ShortOfRead(buf, 2);
    EncodeIs(c);
    Three(buf, Complete(buf));
  }

  lemma EncodeIs(c: Command)
    ensures Encode(c) == Short(c.code) + Short(|c.args|) + EncodeArgs(c.args)
  {
  }

  lemma Three(buf: Bytes, e: nat)
    requires 4 <= e <= |buf|
    ensures buf[..e] == buf[0..2] + buf[2..4] + buf[4..e]
  {
  }

  datatype GetArgResult = Arg(bytes: Bytes) | BadIndex

  /** Extracts one argument of a complete command, walking over those before it; -2 is BadIndex. */
  method CmdGetArg(buf: Bytes, argidx: nat) returns (result: GetArgResult)
    requires Complete(buf) > 0
    ensures result == if argidx < |ArgsOf(buf)| then Arg(ArgsOf(buf)[argidx]) else BadIndex
  {
    hide *;
    OpenCommand(buf);
    var n := ReadShort(buf, 2);
    if argidx >= n {
      return BadIndex;
    }
    var p, curridx := 4, 0;
    NextArg(buf, p, n);
    var currarglen := ReadLong(buf, p);
    while curridx < argidx
      invariant 4 <= p <= |buf| && curridx <= argidx < n
      invariant ArgsEnd(buf, p, n - curridx).Some?
      invariant ParseArgs(buf, p, n - curridx)[argidx - curridx] == ArgsOf(buf)[argidx]
      invariant p + 4 <= |buf| && currarglen == ReadLong(buf, p)
    {
      NextArg(buf, p, n - curridx);
      p := p + 4 + currarglen;
      curridx := curridx + 1;
      NextArg(buf, p, n - curridx);
      currarglen := ReadLong(buf, p);
    }
    NextArg(buf, p, n - curridx);
    result := Arg(buf[p + 4..p + 4 + currarglen]);
  }

  lemma OpenCommand(buf: Bytes)
    requires Complete(buf) > 0
    ensures |buf| >= 4 && ArgsEnd(buf, 4, ReadShort(buf, 2)) == Some(Complete(buf))
    ensures ArgsOf(buf) == ParseArgs(buf, 4, ReadShort(buf, 2))
  {
  }
}
