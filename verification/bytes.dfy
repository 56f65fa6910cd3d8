/** Byte sequences: the content a stream yields. */
module Bytes {

  newtype byte = x: int | 0 <= x < 256

  function Min(a: int, b: int): int {
    if a <= b then a else b
  }

  /** The concatenation of a sequence of byte sequences. */
  function Concat(parts: seq<seq<byte>>): seq<byte> {
    if |parts| == 0 then [] else parts[0] + Concat(parts[1..])
  }

  lemma {:induction false} ConcatAppend(a: seq<seq<byte>>, b: seq<seq<byte>>)
    ensures Concat(a + b) == Concat(a) + Concat(b)
  {
    if |a| == 0 {
      assert a + b == b;
    } else {
      assert (a + b)[1..] == a[1..] + b;
      ConcatAppend(a[1..], b);
    }
  }

  lemma Associative(a: seq<byte>, b: seq<byte>, c: seq<byte>)
    ensures (a + b) + c == a + (b + c)
  {
  }

  lemma ConcatSingle(s: seq<byte>)
    ensures Concat([s]) == s
  {
    assert [s][1..] == [];
  }

  /** Sum of the lengths of the parts. */
  function TotalLength(parts: seq<seq<byte>>): nat {
    if |parts| == 0 then 0 else |parts[0]| + TotalLength(parts[1..])
  }

  lemma {:induction false} ConcatLength(parts: seq<seq<byte>>)
    ensures |Concat(parts)| == TotalLength(parts)
  {
    if |parts| > 0 {
      ConcatLength(parts[1..]);
    }
  }

  /** The at most `n` first bytes of `s`. */
  function Take(s: seq<byte>, n: int): (r: seq<byte>)
    ensures |r| == if n <= 0 then 0 else Min(n, |s|)
    ensures r == s[..|r|]
  {
    if n <= 0 then [] else s[..Min(n, |s|)]
  }

  /** `s` with the at most `n` first bytes removed. */
  function Drop(s: seq<byte>, n: int): (r: seq<byte>)
    ensures Take(s, n) + r == s
  {
    if n <= 0 then s else s[Min(n, |s|)..]
  }
}
