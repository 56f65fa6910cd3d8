/** `RarFileStream` (backend/Streams/RarFileStream.cs): a seekable stream
    over one file stored (uncompressed) in a multi-volume RAR archive.

    The member's bytes lie in one window per volume: `byteCount` bytes
    from `offset` in the volume's decoded bytes. The stream reads the
    windows one after the other through a combined stream; each window is
    a volume stream, seeked to the window, limited to its length. A window
    is the limited view's content, as `LimitedLengthStream.Read` delivers
    it; the 32-bit narrowing of `ReadAsWritten` is not applied here. */
module RarFileStream {
  import opened Bytes
  import opened Wrappers
  import CS = CombinedStream
  import LL = LimitedLengthStream
  import Nzb = NzbFileStream

  datatype RarPart = RarPart(segments: seq<Nzb.Segment>, partSize: int, offset: int, byteCount: int)

  datatype RarStream = RarStream(
    parts: seq<RarPart>,
    position: int,
    inner: Option<CS.Combined>,
    disposed: bool)

  /** The decoded bytes of the volume a part lives in. */
  function Volume(p: RarPart): seq<byte> {
    Nzb.Content(p.segments)
  }

  /** The window of part `p`, skipping its first `skip` bytes: the volume
      stream seeked to `offset + skip` and limited to `byteCount - skip`. */
  function Window(p: RarPart, skip: int): seq<byte> {
    LL.Content(LL.LimitLength(Drop(Volume(p), p.offset + skip), p.byteCount - skip))
  }

  function Windows(parts: seq<RarPart>): seq<seq<byte>> {
    seq(|parts|, i requires 0 <= i < |parts| => Window(parts[i], 0))
  }

  /** The stored file: every window, in volume order. */
  function Member(parts: seq<RarPart>): seq<byte> {
    Concat(Windows(parts))
  }

  /** The total size of the windows before part `i`. */
  function PrefixSize(parts: seq<RarPart>, i: int): int
    requires 0 <= i <= |parts|
  {
    if i == 0 then 0 else PrefixSize(parts, i - 1) + parts[i - 1].byteCount
  }

  /** The member offset at which part `i`'s window ends. */
  function EndOf(parts: seq<RarPart>, i: int): int
    requires 0 <= i < |parts|
  {
    PrefixSize(parts, i + 1)
  }

  /** `Length`: the sum of the windows' sizes. */
  function Length(parts: seq<RarPart>): int {
    PrefixSize(parts, |parts|)
  }

  /** Every volume is a consistent upload of `partSize` bytes and every
      window lies inside its volume. */
  ghost predicate WellFormed(parts: seq<RarPart>) {
    && SizesNonNegative(parts)
    && forall i :: 0 <= i < |parts| ==> PartWellFormed(parts[i])
  }

  predicate SizesNonNegative(parts: seq<RarPart>) {
    forall i :: 0 <= i < |parts| ==> parts[i].byteCount >= 0
  }

  ghost predicate PartWellFormed(p: RarPart) {
    && Nzb.WellFormed(p.segments, p.partSize)
    && 0 <= p.offset && 0 <= p.byteCount
    && p.offset + p.byteCount <= p.partSize
  }

  /** In a consistent archive a window holds `byteCount` bytes, and
      skipping into it drops exactly the skipped bytes. */
  lemma WindowSkip(p: RarPart, skip: int)
    requires PartWellFormed(p) && 0 <= skip <= p.byteCount
    ensures |Window(p, 0)| == p.byteCount
    ensures Window(p, skip) == Window(p, 0)[skip..]
  {
    Nzb.ContentLength(p.segments, p.partSize);
    WindowSlice(p, 0);
    WindowSlice(p, skip);
  }

  /** A window inside its volume is a slice of the volume; so is one
      that starts `-skip` bytes before it. */
  lemma WindowSlice(p: RarPart, skip: int)
    requires 0 <= p.offset + skip && skip <= p.byteCount && p.offset + p.byteCount <= |Volume(p)|
    ensures Window(p, skip) == Volume(p)[p.offset + skip..p.offset + p.byteCount]
  {
    var v := Volume(p);
    var rest := v[p.offset + skip..];
    assert Drop(v, p.offset + skip) == rest;
    assert Take(rest, p.byteCount - skip) == rest[..p.byteCount - skip];
  }

  /** In a consistent archive every window holds `byteCount` bytes. */
  lemma WindowLengths(parts: seq<RarPart>)
    requires WellFormed(parts)
    ensures forall k :: 0 <= k < |parts| ==> |Windows(parts)[k]| == parts[k].byteCount
  {
    forall k | 0 <= k < |parts|
      ensures |Windows(parts)[k]| == parts[k].byteCount
    {
      WindowSkip(parts[k], 0);
    }
  }

  /** Sequences with the windows' sizes, up to `i`, hold
      `PrefixSize(parts, i)` bytes. */
  lemma {:induction false} PrefixLength(parts: seq<RarPart>, w: seq<seq<byte>>, i: int)
    requires |w| == |parts| && 0 <= i <= |parts|
    requires forall k :: 0 <= k < |parts| ==> |w[k]| == parts[k].byteCount
    ensures |Concat(w[..i])| == PrefixSize(parts, i)
    decreases i
  {
    if i == 0 {
      assert w[..0] == [];
    } else {
      PrefixLength(parts, w, i - 1);
      assert w[..i] == w[..i - 1] + [w[i - 1]];
      ConcatAppend(w[..i - 1], [w[i - 1]]);
      ConcatSingle(w[i - 1]);
    }
  }

  lemma MemberLength(parts: seq<RarPart>)
    requires WellFormed(parts)
    ensures |Member(parts)| == Length(parts)
  {
    WindowLengths(parts);
    PrefixLength(parts, Windows(parts), |parts|);
    assert Windows(parts)[..|parts|] == Windows(parts);
  }

  /** `SeekRarPart(byteOffset)`: the first part whose window ends after
      `byteOffset`, with the member offset at which its window starts. */
  method SeekRarPart(parts: seq<RarPart>, byteOffset: int) returns (r: Result<(int, int)>)
    ensures r.Ok? ==> && 0 <= r.value.0 < |parts|
                      && r.value.1 == PrefixSize(parts, r.value.0)
                      && byteOffset < EndOf(parts, r.value.0)
                      && forall j :: 0 <= j < r.value.0 ==> EndOf(parts, j) <= byteOffset
    ensures r.Err? ==> && r.error == ArgumentOutOfRange
                       && forall j :: 0 <= j < |parts| ==> EndOf(parts, j) <= byteOffset
  {
    var offset := 0;
    var i := 0;
    while i < |parts|
      invariant 0 <= i <= |parts| && offset == PrefixSize(parts, i)
      invariant forall j :: 0 <= j < i ==> EndOf(parts, j) <= byteOffset
    {
      var nextOffset := offset + parts[i].byteCount;
      if byteOffset < nextOffset {
        return Ok((i, offset));
      }
      offset := nextOffset;
      i := i + 1;
    }
    return Err(ArgumentOutOfRange);
  }

  lemma {:induction false} PrefixMono(parts: seq<RarPart>, i: int, j: int)
    requires SizesNonNegative(parts) && 0 <= i <= j <= |parts|
    ensures PrefixSize(parts, i) <= PrefixSize(parts, j)
    decreases j - i
  {
    if i < j {
      PrefixMono(parts, i, j - 1);
    }
  }

  /** On a consistent archive the part search fails exactly for offsets
      at or past the end of the member. */
  lemma SeekRarPartFailsPastEnd(parts: seq<RarPart>, byteOffset: int)
    requires WellFormed(parts) && |parts| > 0
    ensures (forall j :: 0 <= j < |parts| ==> EndOf(parts, j) <= byteOffset) <==> byteOffset >= Length(parts)
  {
    if byteOffset >= Length(parts) {
      forall j | 0 <= j < |parts|
        ensures EndOf(parts, j) <= byteOffset
      {
        PrefixMono(parts, j + 1, |parts|);
      }
    }
    assert EndOf(parts, |parts| - 1) == Length(parts);
  }

  /** The windows from part `index` on, the first one skipping `skip`
      bytes: the sub-streams of `GetCombinedStream(index, skip)`. */
  function WindowsFrom(parts: seq<RarPart>, index: int, skip: int): seq<seq<byte>>
    requires 0 <= index < |parts|
  {
    [Window(parts[index], skip)] + Windows(parts)[index + 1..]
  }

  /** `GetFileStream(rangeStart)`. A negative start finds the first part
      with no skip past its window's start, so the first volume is read from
      `-rangeStart` bytes before the window; a volume stream seeked before
      the volume's own start fails, as the stream of a consistent upload
      does, with a corrupt-file error. On a consistent archive the stream
      yields the bytes from `rangeStart` on, and it fails exactly when
      `rangeStart` is past the end or before the first volume. */
  method GetFileStream(parts: seq<RarPart>, rangeStart: int) returns (r: Result<CS.Combined>)
    ensures r.Ok? ==> CS.Valid(r.value) && !r.value.isDisposed
    ensures r.Err? ==> && rangeStart != 0
                       && (r.error == ArgumentOutOfRange || r.error == CorruptFile)
                       && (r.error == CorruptFile ==> |parts| > 0)
    ensures WellFormed(parts) && r.Err? ==> (r.error == CorruptFile <==> rangeStart < 0 && |parts| > 0)
    ensures WellFormed(parts) ==>
              (r.Ok? <==> || rangeStart == 0 || 0 <= rangeStart < Length(parts)
                          || (rangeStart < 0 && |parts| > 0 && parts[0].offset + rangeStart >= 0))
    ensures WellFormed(parts) && r.Ok? ==>
              Reachable(parts, rangeStart) && CS.Remaining(r.value) == Tail(parts, rangeStart)
  {
    if rangeStart == 0 {
      if WellFormed(parts) {
        MemberLength(parts);
      }
      return Ok(CS.Open(Windows(parts)));
    }
    var found := SeekRarPart(parts, rangeStart);
    if found.Err? {
      if WellFormed(parts) && |parts| > 0 {
        SeekRarPartFailsPastEnd(parts, rangeStart);
        assert PrefixSize(parts, 0) == 0;
        assert EndOf(parts, 0) == parts[0].byteCount;
      }
      return Err(ArgumentOutOfRange);
    }
    var (index, partOffset) := found.value;
    var skip := rangeStart - partOffset;
    if skip < 0 {
      OnlyNegativeBeforeWindow(parts, rangeStart, index);
    }
    if parts[index].offset + skip < 0 {
      return Err(CorruptFile);
    }
    var stream := CS.Open(WindowsFrom(parts, index, skip));
    if WellFormed(parts) {
      if skip < 0 {
        assert PartWellFormed(parts[0]);
        LeadWindows(parts, skip);
      } else {
        FoundInside(parts, rangeStart, index);
      }
    }
    return Ok(stream);
  }

  /** The bytes of the first volume before the member's window: what a
      negative position reads, from its end, before the member starts.
      Empty when the window's offset lies outside the volume. */
  function Pre(parts: seq<RarPart>): (r: seq<byte>)
    ensures |parts| > 0 && 0 <= parts[0].offset <= |Volume(parts[0])| ==> r == Volume(parts[0])[..parts[0].offset]
  {
    if |parts| == 0 then []
    else
      var p := parts[0];
      if 0 <= p.offset <= |Volume(p)| then Volume(p)[..p.offset] else []
  }

  /** What a stream opened at `pos` yields, given the bytes `pre` before
      the member and the member itself: the member from `pos` on, or, for
      a negative `pos`, the last `-pos` bytes of `pre` and then the whole
      member. Nothing outside those bounds. */
  function TailOf(pre: seq<byte>, member: seq<byte>, pos: int): (r: seq<byte>)
    ensures -|pre| <= pos <= |member| ==> |r| == |member| - pos
    ensures 0 <= pos <= |member| ==> r == member[pos..]
    ensures -|pre| <= pos < 0 ==> r == pre[|pre| + pos..] + member
  {
    if -|pre| <= pos < 0 then pre[|pre| + pos..] + member
    else if 0 <= pos <= |member| then member[pos..]
    else []
  }

  /** A position the stream can serve: inside the member, or before it by
      no more than the first window's offset in its volume. */
  ghost predicate Reachable(parts: seq<RarPart>, pos: int) {
    -|Pre(parts)| <= pos <= |Member(parts)|
  }

  /** What a stream opened at `pos` yields. */
  function Tail(parts: seq<RarPart>, pos: int): (r: seq<byte>) {
    TailOf(Pre(parts), Member(parts), pos)
  }

  /** Reading `n` bytes of what a position yields leaves what the position
      `n` bytes on yields. */
  lemma TailShift(pre: seq<byte>, member: seq<byte>, pos: int, n: nat)
    requires -|pre| <= pos <= |member| && n <= |TailOf(pre, member, pos)|
    ensures -|pre| <= pos + n <= |member|
    ensures TailOf(pre, member, pos + n) == TailOf(pre, member, pos)[n..]
  {
    if pos < 0 {
      var lead := pre[|pre| + pos..];
      if pos + n < 0 {
        assert pre[|pre| + pos + n..] == lead[n..];
      } else {
        assert (lead + member)[n..] == member[n - |lead|..];
      }
    }
  }

  /** Opened before the member, the combined stream yields the last `-pos`
      bytes before the window and then the member. */
  lemma LeadWindows(parts: seq<RarPart>, pos: int)
    requires |parts| > 0 && PartWellFormed(parts[0]) && pos < 0 && 0 <= parts[0].offset + pos
    ensures Reachable(parts, pos)
    ensures Concat(WindowsFrom(parts, 0, pos)) == Tail(parts, pos)
  {
    var p := parts[0];
    LeadWindow(p, pos);
    var w, pre, member := Windows(parts), Pre(parts), Member(parts);
    var lead := pre[|pre| + pos..];
    assert Window(p, pos) == lead + w[0] by {
      assert lead == Volume(p)[p.offset + pos..p.offset];
    }
    assert Concat(WindowsFrom(parts, 0, pos)) == lead + member by {
      assert WindowsFrom(parts, 0, pos) == [lead + w[0]] + w[1..];
      assert w == [w[0]] + w[1..];
      LeadConcat(lead, w[0], w[1..]);
    }
  }

  /** Prepending bytes to the first piece prepends them to the whole. */
  lemma LeadConcat(lead: seq<byte>, first: seq<byte>, rest: seq<seq<byte>>)
    ensures Concat([lead + first] + rest) == lead + Concat([first] + rest)
  {
    calc {
      Concat([lead + first] + rest);
    == { ConcatCons(lead + first, rest); }
      (lead + first) + Concat(rest);
      lead + (first + Concat(rest));
    == { ConcatCons(first, rest); }
      lead + Concat([first] + rest);
    }
  }

  lemma ConcatCons(a: seq<byte>, rest: seq<seq<byte>>)
    ensures Concat([a] + rest) == a + Concat(rest)
  {
    assert ([a] + rest)[1..] == rest;
  }

  /** The first window opened `-pos` bytes early holds the lead bytes and
      then the window. */
  lemma LeadWindow(p: RarPart, pos: int)
    requires PartWellFormed(p) && pos < 0 && 0 <= p.offset + pos
    ensures p.offset <= |Volume(p)|
    ensures Window(p, pos) == Volume(p)[p.offset + pos..p.offset] + Window(p, 0)
  {
    Nzb.ContentLength(p.segments, p.partSize);
    WindowSlice(p, pos);
    WindowSlice(p, 0);
  }

  /** The part search lands before its window's start only for a
      negative offset, in the first part. */
  lemma OnlyNegativeBeforeWindow(parts: seq<RarPart>, rangeStart: int, index: int)
    requires 0 <= index < |parts|
    requires forall j :: 0 <= j < index ==> EndOf(parts, j) <= rangeStart
    requires rangeStart < PrefixSize(parts, index)
    ensures index == 0 && rangeStart < 0
  {
    assert forall j :: 0 < j <= index ==> EndOf(parts, j - 1) == PrefixSize(parts, j);
  }

  /** A start inside the window of the part found lies inside the member,
      and the stream opened there yields the member from that start. */
  lemma FoundInside(parts: seq<RarPart>, rangeStart: int, index: int)
    requires WellFormed(parts) && 0 <= index < |parts|
    requires PrefixSize(parts, index) <= rangeStart < EndOf(parts, index)
    ensures 0 <= rangeStart < Length(parts) && rangeStart <= |Member(parts)|
    ensures Concat(WindowsFrom(parts, index, rangeStart - PrefixSize(parts, index))) == Member(parts)[rangeStart..]
  {
    MemberFrom(parts, index, rangeStart - PrefixSize(parts, index));
    PrefixMono(parts, index + 1, |parts|);
    PrefixMono(parts, 0, index);
  }

  /** Skipping into part `index`'s window continues the member at the
      corresponding offset. */
  lemma MemberFrom(parts: seq<RarPart>, index: int, skip: int)
    requires WellFormed(parts) && 0 <= index < |parts| && 0 <= skip < parts[index].byteCount
    ensures 0 <= PrefixSize(parts, index) + skip < |Member(parts)|
    ensures Concat(WindowsFrom(parts, index, skip)) == Member(parts)[PrefixSize(parts, index) + skip..]
  {
    MemberFromBounds(parts, index, skip);
    assert PartWellFormed(parts[index]);
    WindowSkip(parts[index], skip);
    SkipWindow(parts, index, skip);
  }

  /** `SkipInto` for the windows of `parts`, given the window's length. */
  lemma SkipWindow(parts: seq<RarPart>, index: int, skip: int)
    requires 0 <= index < |parts| && 0 <= skip <= parts[index].byteCount
    requires |Window(parts[index], 0)| == parts[index].byteCount
    requires Window(parts[index], skip) == Window(parts[index], 0)[skip..]
    requires |Concat(Windows(parts)[..index])| == PrefixSize(parts, index)
    ensures PrefixSize(parts, index) + skip <= |Member(parts)|
    ensures Concat(WindowsFrom(parts, index, skip)) == Member(parts)[PrefixSize(parts, index) + skip..]
  {
    var w := Windows(parts);
    SkipInto(w, index, skip, Window(parts[index], skip), PrefixSize(parts, index) + skip);
  }

  /** The offset of a byte inside part `index`'s window, in the member. */
  lemma MemberFromBounds(parts: seq<RarPart>, index: int, skip: int)
    requires WellFormed(parts) && 0 <= index < |parts| && 0 <= skip < parts[index].byteCount
    ensures 0 <= PrefixSize(parts, index) + skip < |Member(parts)|
    ensures |Concat(Windows(parts)[..index])| == PrefixSize(parts, index)
  {
    WindowLengths(parts);
    PrefixLength(parts, Windows(parts), index);
    MemberLength(parts);
    PrefixMono(parts, 0, index);
    PrefixMono(parts, index + 1, |parts|);
  }

  /** Dropping the first `skip` bytes of piece `index` of a concatenation
      drops the bytes at that offset of the whole. */
  lemma SkipInto(w: seq<seq<byte>>, index: int, skip: int, first: seq<byte>, at: int)
    requires 0 <= index < |w| && 0 <= skip <= |w[index]|
    requires first == w[index][skip..] && at == |Concat(w[..index])| + skip
    ensures at <= |Concat(w)|
    ensures Concat([first] + w[index + 1..]) == Concat(w)[at..]
  {
    var before, piece, after := w[..index], w[index], w[index + 1..];
    assert w == before + ([piece] + after);
    ConcatAppend(before, [piece] + after);
    ConcatAppend([piece], after);
    ConcatAppend([piece[skip..]], after);
    ConcatSingle(piece);
    ConcatSingle(piece[skip..]);
  }

  /** A stream whose inner stream, when present, yields exactly what its
      position yields. */
  ghost predicate Consistent(s: RarStream) {
    s.inner.Some? ==>
      && CS.Valid(s.inner.value)
      && Reachable(s.parts, s.position)
      && CS.Remaining(s.inner.value) == Tail(s.parts, s.position)
  }

  function Open(parts: seq<RarPart>): (s: RarStream)
    ensures Consistent(s) && s.position == 0
  {
    RarStream(parts, 0, None, false)
  }

  /** `ReadAsync(buffer, offset, count)`: the bytes read are the member's
      bytes at the current position, or the first volume's bytes before
      the member for a negative position. An empty read returns before the
      combined stream touches a volume (CombinedStream.cs:28), so an empty
      read at a position before the first volume succeeds; it returns
      without keeping the stream it opened. */
  method Read(s: RarStream, count: nat) returns (s': RarStream, r: Result<seq<byte>>)
    requires s.inner.Some? ==> CS.Valid(s.inner.value)
    ensures s'.parts == s.parts
    ensures r.Err? ==> && s' == s && s.inner.None? && s.position != 0
                       && (r.error == ArgumentOutOfRange || (r.error == CorruptFile && count > 0))
    ensures r.Ok? ==> && s'.position == s.position + |r.value| && |r.value| <= count
                      && (s'.inner.Some? ==> CS.Valid(s'.inner.value))
                      && (s'.inner.None? ==> s' == s && r.value == [] && count == 0)
    ensures WellFormed(s.parts) && Consistent(s) ==>
              (r.Ok? <==> || s.inner.Some? || s.position == 0 || 0 <= s.position < Length(s.parts)
                          || (s.position < 0 && |s.parts| > 0 && (count == 0 || s.parts[0].offset + s.position >= 0)))
    ensures WellFormed(s.parts) && Consistent(s) && r.Ok? ==> ReadsAt(s, s', r.value, count)
  {
    ghost var good := WellFormed(s.parts) && Consistent(s);
    if good {
      MemberLength(s.parts);
    }
    if s.inner.Some? {
      assert good ==> Serves(s, s.inner.value);
      s', r := ReadThrough(s, s.inner.value, count);
    } else {
      var created := GetFileStream(s.parts, s.position);
      if created.Err? {
        if created.error == CorruptFile && count == 0 {
          return s, Ok([]);
        }
        return s, Err(created.error);
      }
      assert good ==> Serves(s, created.value);
      s', r := ReadThrough(s, created.value, count);
    }
  }

  /** A read of `count` bytes from `s` that returned `data` and left `s'`:
      the bytes are the next bytes of what the position yields, there are
      some while the member has bytes left, and the stream stays
      consistent. */
  ghost predicate ReadsAt(s: RarStream, s': RarStream, data: seq<byte>, count: nat) {
    && Consistent(s')
    && |data| <= |Tail(s.parts, s.position)|
    && data == Tail(s.parts, s.position)[..|data|]
    && (count > 0 && s.position < Length(s.parts) ==> |data| > 0)
  }

  /** An inner stream that yields what the stream's position yields. */
  ghost predicate Serves(s: RarStream, inner: CS.Combined) {
    && Reachable(s.parts, s.position)
    && CS.Remaining(inner) == Tail(s.parts, s.position)
    && |Member(s.parts)| == Length(s.parts)
  }

  /** The read itself, once the inner stream is open. */
  method ReadThrough(s: RarStream, inner: CS.Combined, count: nat) returns (s': RarStream, r: Result<seq<byte>>)
    requires CS.Valid(inner)
    ensures s' == s.(inner := Some(CS.Read(inner, count).0), position := s.position + |CS.Read(inner, count).1|)
    ensures r == Ok(CS.Read(inner, count).1) && |r.value| <= count && CS.Valid(s'.inner.value)
    ensures Serves(s, inner) ==> ReadsAt(s, s', r.value, count)
  {
    var read := CS.Read(inner, count);
    s' := s.(inner := Some(read.0), position := s.position + |read.1|);
    r := Ok(read.1);
    if Serves(s, inner) {
      ReadStep(s, inner, count, s');
    }
  }

  /** A read through an inner stream that serves the position returns the
      next bytes of what the position yields and keeps the stream in step. */
  lemma ReadStep(s: RarStream, inner: CS.Combined, count: nat, s': RarStream)
    requires CS.Valid(inner) && Serves(s, inner)
    requires s' == s.(inner := Some(CS.Read(inner, count).0), position := s.position + |CS.Read(inner, count).1|)
    ensures ReadsAt(s, s', CS.Read(inner, count).1, count)
  {
    var pre, member := Pre(s.parts), Member(s.parts);
    var inner', data := CS.Read(inner, count).0, CS.Read(inner, count).1;
    ReadFront(TailOf(pre, member, s.position), inner, count);
    TailShift(pre, member, s.position, |data|);
    assert s'.parts == s.parts && s'.position == s.position + |data| && s'.inner == Some(inner');
  }

  /** A read from a stream that yields `t` returns the front of `t` and
      leaves the rest; it returns something when asked for bytes while
      `t` is not empty. */
  lemma ReadFront(t: seq<byte>, inner: CS.Combined, count: nat)
    requires CS.Valid(inner) && CS.Remaining(inner) == t
    ensures var data := CS.Read(inner, count).1;
            && |data| <= |t| && data == t[..|data|]
            && CS.Remaining(CS.Read(inner, count).0) == t[|data|..]
    ensures count > 0 && |t| > 0 ==> |CS.Read(inner, count).1| > 0
  {
    assert t[0..] == t;
    Nzb.ReadAtPosition(t, 0, inner, count);
  }


  /** `Seek(offset, origin)`: from the start or the current position only;
      seeking elsewhere drops the inner stream. */
  function Seek(s: RarStream, offset: int, origin: Nzb.SeekOrigin): (r: Result<RarStream>)
    ensures r.Err? <==> origin == Nzb.End
    ensures r.Err? ==> r.error == InvalidOperation
    ensures r.Ok? ==> && r.value.position == (if origin == Nzb.Begin then offset else s.position + offset)
                      && r.value.parts == s.parts
    ensures r.Ok? && r.value.position == s.position ==> r.value == s
    ensures r.Ok? && r.value.position != s.position ==> r.value.inner.None?
    ensures Consistent(s) && r.Ok? ==> Consistent(r.value)
  {
    if origin == Nzb.End then Err(InvalidOperation)
    else
      var absoluteOffset := if origin == Nzb.Begin then offset else s.position + offset;
      if absoluteOffset == s.position then Ok(s)
      else Ok(s.(position := absoluteOffset, inner := None))
  }
}
