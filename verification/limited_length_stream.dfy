/** `LimitedLengthStream` (backend/Streams/LimitedLengthStream.cs): a
    forward-only view of at most `length` bytes of an inner stream.

    The source narrows the remaining length to a 32-bit `int` with an
    unchecked cast; `ReadAsWritten` keeps that cast, `Read` is the same
    read without it, and the rest of the model uses `Read`. */
module LimitedLengthStream {
  import opened Bytes
  import opened Wrappers

  const Int32Modulus: int := 0x1_0000_0000
  const Int32Max: int := 0x7FFF_FFFF

  /** The unchecked conversion `(int)x` of a 64-bit value: the low 32 bits
      read as a two's-complement number. */
  function ToInt32(x: int): (r: int)
    ensures -Int32Max - 1 <= r <= Int32Max
    ensures (r - x) % Int32Modulus == 0
    ensures -Int32Max - 1 <= x <= Int32Max ==> r == x
  {
    var m := x % Int32Modulus;
    if m > Int32Max then m - Int32Modulus else m
  }

  datatype Limited = Limited(
    inner: seq<byte>,   // what the inner stream still yields
    length: int,
    position: int,
    disposed: bool,
    innerDisposals: nat)

  /** `stream.LimitLength(length)`. */
  function LimitLength(inner: seq<byte>, length: int): (l: Limited)
    ensures Content(l) == Take(inner, length)
  {
    Limited(inner, length, 0, false, 0)
  }

  /** The bytes the limited stream will still yield. */
  function Content(l: Limited): seq<byte> {
    Take(l.inner, l.length - l.position)
  }

  /** `Length`: the limit, whatever the inner stream holds. */
  function Length(l: Limited): int {
    l.length
  }

  /** `ReadAsync(buffer)` as written: the remaining length is narrowed to
      32 bits before it is compared with the buffer size, and a negative
      slice length throws. */
  function ReadAsWritten(l: Limited, count: nat): (r: Result<(Limited, seq<byte>)>)
    ensures r.Err? ==> r.error == ArgumentOutOfRange
    ensures r.Ok? ==> |r.value.1| <= count && r.value.1 + r.value.0.inner == l.inner
  {
    if l.position >= l.length then Ok((l, []))
    else
      var remainingBytes := ToInt32(l.length - l.position);
      var bytesToRead := Min(remainingBytes, count);
      if bytesToRead < 0 then Err(ArgumentOutOfRange)
      else
        var data := Take(l.inner, bytesToRead);
        Ok((l.(inner := Drop(l.inner, bytesToRead), position := l.position + |data|), data))
  }

  /** `ReadAsync(buffer)` without the narrowing: reads at most `count`
      bytes and never past the limit. The bytes read are the next bytes of
      the content; a read asking for bytes returns none only at the end. */
  function Read(l: Limited, count: nat): (r: (Limited, seq<byte>))
    ensures r.1 + Content(r.0) == Content(l)
    ensures r.1 + r.0.inner == l.inner
    ensures |r.1| <= count
    ensures count > 0 && Content(l) != [] ==> |r.1| > 0
    ensures r.0.position == l.position + |r.1| && r.0.length == l.length
  {
    if l.position >= l.length then (l, [])
    else
      var bytesToRead := Min(l.length - l.position, count);
      var data := Take(l.inner, bytesToRead);
      var l' := l.(inner := Drop(l.inner, bytesToRead), position := l.position + |data|);
      assert Content(l) == data + Content(l');
      (l', data)
  }

  /** Below 2^31 remaining bytes the narrowing changes nothing. */
  lemma ReadAgreesBelowInt32(l: Limited, count: nat)
    requires l.length - l.position <= Int32Max
    ensures ReadAsWritten(l, count) == Ok(Read(l, count))
  {
  }

  /** With exactly 2^32 bytes left the narrowed length is 0: the stream
      reports its end although the inner stream has data. */
  lemma TruncationEndsEarly(inner: seq<byte>)
    requires |inner| > 0
    ensures var l := LimitLength(inner, Int32Modulus);
            && ReadAsWritten(l, 1024) == Ok((l, []))
            && |Read(l, 1024).1| == Min(1024, |inner|)
  {
  }

  /** With 2^31 bytes left the narrowed length is negative and the read
      throws instead of returning data. */
  lemma TruncationThrows(inner: seq<byte>)
    requires |inner| > 0
    ensures var l := LimitLength(inner, Int32Max + 1);
            && ReadAsWritten(l, 1024) == Err(ArgumentOutOfRange)
            && |Read(l, 1024).1| > 0
  {
  }

  /** Reads with the given sizes, one after the other. */
  function ReadMany(l: Limited, counts: seq<nat>): (r: (Limited, seq<byte>))
    decreases |counts|
  {
    if |counts| == 0 then (l, [])
    else
      var (l1, d1) := Read(l, counts[0]);
      var (l2, d2) := ReadMany(l1, counts[1..]);
      (l2, d1 + d2)
  }

  /** Successive reads return the content in order: whatever their sizes,
      what was read followed by what is left is the first `length` bytes
      of the inner stream. */
  lemma {:induction false} ReadManyYieldsPrefix(l: Limited, counts: seq<nat>)
    ensures ReadMany(l, counts).1 + Content(ReadMany(l, counts).0) == Content(l)
    decreases |counts|
  {
    if |counts| > 0 {
      var (l1, d1) := Read(l, counts[0]);
      ReadManyYieldsPrefix(l1, counts[1..]);
    }
  }

  /** Reads with the given sizes as the source performs them: the first
      read that throws ends the sequence with its error. */
  function ReadManyAsWritten(l: Limited, counts: seq<nat>): (r: Result<(Limited, seq<byte>)>)
    ensures r.Err? ==> r.error == ArgumentOutOfRange
    ensures r.Ok? ==> r.value.1 + r.value.0.inner == l.inner && |r.value.1| <= Sum(counts)
    decreases |counts|
  {
    if |counts| == 0 then Ok((l, []))
    else match ReadAsWritten(l, counts[0])
      case Err(e) => Err(e)
      case Ok((l1, d1)) =>
        match ReadManyAsWritten(l1, counts[1..])
        case Err(e) => Err(e)
        case Ok((l2, d2)) =>
          assert d1 + d2 + l2.inner == d1 + (d2 + l2.inner);
          Ok((l2, d1 + d2))
  }

  function Sum(counts: seq<nat>): nat
    decreases |counts|
  {
    if |counts| == 0 then 0 else counts[0] + Sum(counts[1..])
  }

  /** Below 2^31 remaining bytes any sequence of reads as written returns
      what the corrected reads return: a limited view over less than 2 GiB
      yields exactly its content. */
  lemma {:induction false} ReadManyAgreesBelowInt32(l: Limited, counts: seq<nat>)
    requires l.length - l.position <= Int32Max
    ensures ReadManyAsWritten(l, counts) == Ok(ReadMany(l, counts))
    decreases |counts|
  {
    if |counts| > 0 {
      ReadAgreesBelowInt32(l, counts[0]);
      var (l1, d1) := Read(l, counts[0]);
      ReadManyAgreesBelowInt32(l1, counts[1..]);
    }
  }

  /** `Dispose` / `DisposeAsync`: disposes the inner stream the first time. */
  function Dispose(l: Limited): (l': Limited)
    ensures l'.disposed
    ensures l'.innerDisposals == if l.disposed then l.innerDisposals else l.innerDisposals + 1
    ensures Content(l') == Content(l)
  {
    if l.disposed then l else l.(disposed := true, innerDisposals := l.innerDisposals + 1)
  }

  function DisposeTimes(l: Limited, n: nat): Limited
    decreases n
  {
    if n == 0 then l else DisposeTimes(Dispose(l), n - 1)
  }

  /** However often the stream is disposed, the inner stream is disposed
      exactly once. */
  lemma {:induction false} InnerDisposedOnce(l: Limited, n: nat)
    requires !l.disposed && l.innerDisposals == 0 && n > 0
    ensures DisposeTimes(l, n).innerDisposals == 1
  {
    var l1 := Dispose(l);
    assert l1.disposed && l1.innerDisposals == 1;
    StaysDisposed(l1, n - 1);
  }

  lemma {:induction false} StaysDisposed(l: Limited, n: nat)
    requires l.disposed
    ensures DisposeTimes(l, n) == l
    decreases n
  {
    if n > 0 {
      StaysDisposed(Dispose(l), n - 1);
    }
  }
}
