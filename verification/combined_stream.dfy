/** `CombinedStream` (backend/Streams/CombinedStream.cs): a forward-only
    stream that reads a sequence of sub-streams one after the other.

    A sub-stream is identified with the bytes it yields; a read of a
    sub-stream returns as many of its remaining bytes as were asked for.
    The enumerator of sub-streams is the sequence `pending`, pulled from
    the front. */
module CombinedStream {
  import opened Bytes
  import opened Wrappers

  datatype Combined = Combined(
    current: Option<seq<byte>>,   // remaining bytes of the current sub-stream
    pending: seq<seq<byte>>,      // sub-streams not yet pulled from the enumerator
    pulled: nat,                  // how many sub-streams were pulled so far
    disposedSubStreams: set<nat>, // indices (in pull order) of disposed sub-streams
    position: int,
    isDisposed: bool)

  /** A combined stream over `subStreams`, nothing pulled yet. */
  function Open(subStreams: seq<seq<byte>>): (c: Combined)
    ensures Valid(c) && Remaining(c) == Concat(subStreams)
  {
    Combined(None, subStreams, 0, {}, 0, false)
  }

  /** The sub-streams still to be read, the current one first. */
  function SubStreams(c: Combined): seq<seq<byte>> {
    match c.current
    case None => c.pending
    case Some(s) => [s] + c.pending
  }

  /** Every byte the stream will still yield. */
  function Remaining(c: Combined): seq<byte> {
    Concat(SubStreams(c))
  }

  /** Book-keeping the stream keeps: there is a current sub-stream exactly
      when one was pulled, every sub-stream left behind has been disposed,
      and no sub-stream is disposed before it is pulled. */
  ghost predicate Valid(c: Combined) {
    && (c.current.Some? <==> c.pulled > 0)
    && (forall i :: 0 <= i < c.pulled - 1 ==> i in c.disposedSubStreams)
    && (forall i :: i in c.disposedSubStreams ==> i < c.pulled)
  }

  /** `_streams.MoveNext()` followed by `_currentStream = Current`. */
  function MoveNext(c: Combined): (c': Combined)
    requires |c.pending| > 0
    requires Valid(c)
    requires c.current.Some? ==> c.pulled - 1 in c.disposedSubStreams
    ensures Valid(c') && c'.current == Some(c.pending[0]) && c'.pending == c.pending[1..]
  {
    c.(current := Some(c.pending[0]), pending := c.pending[1..], pulled := c.pulled + 1)
  }

  /** The first sub-stream that still has bytes, or the empty sequence. */
  function FirstNonEmpty(subs: seq<seq<byte>>): seq<byte> {
    if |subs| == 0 then [] else if |subs[0]| > 0 then subs[0] else FirstNonEmpty(subs[1..])
  }

  lemma {:induction false} FirstNonEmptyPrefix(subs: seq<seq<byte>>)
    ensures FirstNonEmpty(subs) == [] <==> Concat(subs) == []
    ensures |FirstNonEmpty(subs)| <= |Concat(subs)|
    ensures Concat(subs)[..|FirstNonEmpty(subs)|] == FirstNonEmpty(subs)
  {
    if |subs| > 0 {
      FirstNonEmptyPrefix(subs[1..]);
    }
  }

  /** The body of the read loop, entered with a current sub-stream. */
  function ReadLoop(c: Combined, count: nat): (r: (Combined, seq<byte>))
    requires count > 0 && c.current.Some? && Valid(c)
    ensures Valid(r.0) && r.0.isDisposed == c.isDisposed
    ensures r.1 + Remaining(r.0) == Remaining(c)
    ensures r.1 == Take(FirstNonEmpty(SubStreams(c)), count)
    ensures r.0.position == c.position + |r.1|
    decreases |c.pending|
  {
    var s := c.current.value;
    var k := Min(count, |s|);
    var c1 := c.(current := Some(s[k..]), position := c.position + k);
    assert s == s[..k] + s[k..];
    if k > 0 then
      (c1, s[..k])
    else
      // the current sub-stream is exhausted: dispose it and advance
      var c2 := c1.(disposedSubStreams := c1.disposedSubStreams + {c1.pulled - 1});
      if |c2.pending| == 0 then
        (c2, [])
      else
        var c3 := MoveNext(c2);
        assert SubStreams(c3) == SubStreams(c)[1..];
        ReadLoop(c3, count)
  }

  /** `ReadAsync(buffer, offset, count)`: a read of `count` bytes returns
      the next bytes of the first sub-stream that still has any, never
      more than `count`, and returns nothing only at the end of the data. */
  function Read(c: Combined, count: nat): (r: (Combined, seq<byte>))
    requires Valid(c)
    ensures Valid(r.0) && r.0.isDisposed == c.isDisposed
    ensures r.1 + Remaining(r.0) == Remaining(c)
    ensures r.1 == Take(FirstNonEmpty(SubStreams(c)), count)
    ensures r.0.position == c.position + |r.1|
  {
    if count == 0 then (c, [])
    else if c.current.Some? then ReadLoop(c, count)
    else if |c.pending| == 0 then (c, [])
    else ReadLoop(MoveNext(c), count)
  }

  /** A read asking for at least one byte returns at least one byte unless
      the stream is at its end, and never more than asked. */
  lemma ReadProgress(c: Combined, count: nat)
    requires Valid(c)
    ensures |Read(c, count).1| <= count
    ensures count > 0 && Remaining(c) != [] ==> |Read(c, count).1| > 0
    ensures Read(c, count).1 == Remaining(c)[..|Read(c, count).1|]
  {
    FirstNonEmptyPrefix(SubStreams(c));
  }

  /** Reads with the given sizes, one after the other. */
  function ReadMany(c: Combined, counts: seq<nat>): (r: (Combined, seq<byte>))
    requires Valid(c)
    ensures Valid(r.0)
    decreases |counts|
  {
    if |counts| == 0 then (c, [])
    else
      var (c1, d1) := Read(c, counts[0]);
      var (c2, d2) := ReadMany(c1, counts[1..]);
      (c2, d1 + d2)
  }

  predicate AllPositive(counts: seq<nat>) {
    forall i :: 0 <= i < |counts| ==> counts[i] > 0
  }

  /** Whatever the sizes of the successive reads, the bytes returned are
      the next bytes of the stream, in order. */
  lemma {:induction false} ReadManyConcatenates(c: Combined, counts: seq<nat>)
    requires Valid(c)
    ensures ReadMany(c, counts).1 + Remaining(ReadMany(c, counts).0) == Remaining(c)
    decreases |counts|
  {
    if |counts| > 0 {
      var r1 := Read(c, counts[0]);
      ReadManyConcatenates(r1.0, counts[1..]);
      var r2 := ReadMany(r1.0, counts[1..]);
      assert ReadMany(c, counts) == (r2.0, r1.1 + r2.1);
      Associative(r1.1, r2.1, Remaining(r2.0));
    }
  }

  /** Once as many non-empty reads were made as there were bytes, the
      whole content of the sub-streams has been returned. */
  lemma {:induction false} ReadManyDrains(c: Combined, counts: seq<nat>)
    requires Valid(c)
    requires AllPositive(counts) && |counts| >= |Remaining(c)|
    ensures ReadMany(c, counts).1 == Remaining(c)
    decreases |counts|
  {
    ReadManyConcatenates(c, counts);
    if |counts| > 0 {
      var (c1, d1) := Read(c, counts[0]);
      ReadProgress(c, counts[0]);
      assert AllPositive(counts[1..]) by {
        assert forall i :: 0 <= i < |counts[1..]| ==> counts[1..][i] == counts[i + 1];
      }
      assert |Remaining(c1)| <= |counts[1..]|;
      ReadManyDrains(c1, counts[1..]);
    } else {
      assert Remaining(c) == [];
    }
  }

  /** The loop of `DiscardBytesAsync`: reads in chunks of at most 1024
      bytes until `remaining` bytes are read or a read returns nothing. */
  function DiscardLoop(c: Combined, remaining: int): (r: (Combined, nat))
    requires Valid(c)
    ensures Valid(r.0) && r.0.isDisposed == c.isDisposed
    ensures r.1 == if remaining <= 0 then 0 else Min(remaining, |Remaining(c)|)
    ensures Remaining(c) == Remaining(c)[..r.1] + Remaining(r.0)
    ensures r.0.position == c.position + r.1
    decreases remaining
  {
    if remaining <= 0 then (c, 0)
    else
      var toRead := Min(remaining, 1024);
      var (c1, read) := Read(c, toRead);
      ReadProgress(c, toRead);
      if |read| == 0 then (c1, 0)
      else
        var (c2, more) := DiscardLoop(c1, remaining - |read|);
        SplitAfter(Remaining(c), read, Remaining(c1), more, Remaining(c2));
        (c2, |read| + more)
  }

  /** Skipping `read` and then `more` bytes of what follows skips the
      first `|read| + more` bytes. */
  lemma SplitAfter(all: seq<byte>, read: seq<byte>, rest: seq<byte>, more: nat, rest2: seq<byte>)
    requires all == read + rest && more <= |rest| && rest == rest[..more] + rest2
    ensures all == all[..|read| + more] + rest2
  {
    assert all[..|read| + more] == read + rest[..more];
  }

  /** `DiscardBytesAsync(count)` as written: skips `count` bytes (or all
      that remain), then advances the position by `count` again on top of
      the reads that already advanced it. */
  function DiscardBytes(c: Combined, count: int): (c': Combined)
    requires Valid(c)
    ensures Valid(c') && c'.isDisposed == c.isDisposed
    ensures Remaining(c') == Remaining(c)[(if count <= 0 then 0 else Min(count, |Remaining(c)|))..]
    ensures count >= 0 ==>
              c'.position == c.position + Min(count, |Remaining(c)|) + (if count == 0 then 0 else count)
  {
    if count == 0 then c
    else
      var (c1, read) := DiscardLoop(c, count);
      c1.(position := c1.position + count)
  }

  /** The double count: on a stream with bytes to skip, the position ends
      up twice the number of bytes skipped. */
  lemma DiscardDoubleCounts()
    ensures var c := DiscardBytes(Open([[1, 2, 3]]), 2);
            c.position == 4 && Remaining(c) == [3]
  {
    var o := Open([[1, 2, 3]]);
    assert Concat([[1, 2, 3]]) == [1, 2, 3] by { ConcatSingle([1, 2, 3]); }
  }

  /** `DiscardBytesAsync` with the position advanced once per byte
      skipped: the position then counts exactly the bytes consumed. */
  function DiscardBytesCorrected(c: Combined, count: int): (c': Combined)
    requires Valid(c)
    ensures Valid(c') && c'.isDisposed == c.isDisposed
    ensures var skipped := if count <= 0 then 0 else Min(count, |Remaining(c)|);
            Remaining(c') == Remaining(c)[skipped..] && c'.position == c.position + skipped
  {
    DiscardLoop(c, count).0
  }

  /** `Dispose` / `DisposeAsync`: disposes the current sub-stream and the
      enumerator, once. */
  function Dispose(c: Combined): (c': Combined)
    requires Valid(c)
    ensures Valid(c') && c'.isDisposed
    ensures Remaining(c') == Remaining(c) && c'.position == c.position
    ensures c.isDisposed ==> c' == c
    ensures !c.isDisposed && c.pulled > 0 ==> c.pulled - 1 in c'.disposedSubStreams
  {
    if c.isDisposed then c
    else if c.current.Some? then
      c.(disposedSubStreams := c.disposedSubStreams + {c.pulled - 1}, isDisposed := true)
    else
      c.(isDisposed := true)
  }

  /** Disposing twice is the same as disposing once. */
  lemma DisposeIdempotent(c: Combined)
    requires Valid(c) && !c.isDisposed
    ensures Dispose(Dispose(c)) == Dispose(c)
  {
  }
}
