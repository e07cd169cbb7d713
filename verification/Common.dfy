/** Options, and the library calls the G-code buffer relies on. */
module Common {

  datatype Option<+T> = None | Some(value: T)

  /** Binary data of the Makerbot path. */
  type Frame = seq<bv8>

  function Max(a: int, b: int): (m: int)
    ensures m >= a && m >= b && (m == a || m == b)
  {
    if a < b then b else a
  }

  function Min(a: int, b: int): (m: int)
    ensures m <= a && m <= b && (m == a || m == b)
  {
    if a < b then a else b
  }

  function Flatten<T>(ss: seq<seq<T>>): seq<T> {
    if ss == [] then [] else ss[0] + Flatten(ss[1..])
  }

  lemma {:induction false} FlattenAppend<T>(a: seq<seq<T>>, b: seq<seq<T>>)
    ensures Flatten(a + b) == Flatten(a) + Flatten(b)
  {
    if a == [] {
      assert a + b == b;
    } else {
      assert (a + b)[0] == a[0] && (a + b)[1..] == a[1..] + b;
      FlattenAppend(a[1..], b);
    }
  }

  lemma FlattenNone<T>()
    ensures Flatten<T>([]) == []
  {
  }

  lemma FlattenCons<T>(s: seq<T>, ss: seq<seq<T>>)
    ensures Flatten([s] + ss) == s + Flatten(ss)
  {
    assert ([s] + ss)[1..] == ss;
  }

  lemma FlattenOne<T>(s: seq<T>)
    ensures Flatten([s]) == s
  {
    assert [s][1..] == [];
  }

  lemma FlattenLast<T>(a: seq<seq<T>>, s: seq<T>)
    ensures Flatten(a + [s]) == Flatten(a) + s
  {
    FlattenAppend(a, [s]);
    FlattenOne(s);
  }
}

/** The std::string searches, with npos modelled as -1. */
module Strings {

  const NPOS := -1

  function Find(s: string, c: char, from: nat): (r: int)
    ensures r == NPOS || from <= r < |s|
    ensures r == NPOS ==> forall i :: from <= i < |s| ==> s[i] != c
    ensures r != NPOS ==> s[r] == c && forall i :: from <= i < r ==> s[i] != c
    decreases |s| - from
  {
    if from >= |s| then NPOS else if s[from] == c then from else Find(s, c, from + 1)
  }

  /** Position of the first two equal characters `c` in a row. */
  function FindTwice(s: string, c: char, from: nat): (r: int)
    ensures r == NPOS || from <= r < |s| - 1
    ensures r == NPOS ==> forall i :: from <= i < |s| - 1 ==> !(s[i] == c && s[i + 1] == c)
    ensures r != NPOS ==> s[r] == c && s[r + 1] == c
    ensures r != NPOS ==> forall i :: from <= i < r ==> !(s[i] == c && s[i + 1] == c)
    decreases |s| - from
  {
    if from + 1 >= |s| then NPOS else if s[from] == c && s[from + 1] == c then from else FindTwice(s, c, from + 1)
  }

  function Count(s: string, c: char, from: nat): (n: nat)
    ensures from <= |s| ==> n <= |s| - from
    decreases |s| - from
  {
    if from >= |s| then 0 else (if s[from] == c then 1 else 0) + Count(s, c, from + 1)
  }

  lemma Regroup(a: string, b: string, c: string)
    ensures a + (b + c) == a + b + c
  {
  }

  /** C strings end at the first NUL. */
  function UpToNul(s: string): (t: string)
    ensures t <= s && '\0' !in t
    ensures |t| < |s| ==> s[|t|] == '\0'
    ensures (forall i :: 0 <= i < |s| ==> s[i] != '\0') ==> t == s
  {
    var p := Find(s, '\0', 0);
    if p == NPOS then s else s[..p]
  }
}
