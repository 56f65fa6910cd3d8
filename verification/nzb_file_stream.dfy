/** `NzbFileStream` (backend/Streams/NzbFileStream.cs): a seekable stream
    over the decoded bytes of one NZB file, whose segments are separate
    Usenet articles.

    Each segment is given by the byte range its yEnc header announces
    (`PartOffset`, `PartOffset + PartSize`) and the bytes its body decodes
    to; fetching a header or a body is modelled as reading these fields. */
module NzbFileStream {
  import opened Bytes
  import opened Wrappers
  import opened InterpolationSearch
  import CS = CombinedStream

  datatype Segment = Segment(header: Range, data: seq<byte>)

  datatype SeekOrigin = Begin | Current | End

  datatype NzbStream = NzbStream(
    segments: seq<Segment>,
    fileSize: int,
    position: int,
    inner: Option<CS.Combined>,
    firstSegmentCached: bool,   // a stream of the first segment was handed in
    disposed: bool)

  /** The header range of segment `i`, as the header callback reports it. */
  function HeaderAt(segments: seq<Segment>, i: int): Range {
    if 0 <= i < |segments| then segments[i].header else Range(0, 0)
  }

  function Bodies(segments: seq<Segment>): seq<seq<byte>> {
    seq(|segments|, i requires 0 <= i < |segments| => segments[i].data)
  }

  /** The file: every segment's bytes, in order. */
  function Content(segments: seq<Segment>): seq<byte> {
    Concat(Bodies(segments))
  }

  /** A consistent upload: the headers tile `[0, fileSize)` in order and
      every body holds as many bytes as its header announces. */
  ghost predicate WellFormed(segments: seq<Segment>, fileSize: int) {
    && fileSize >= 0
    && Chained(segments, fileSize)
    && forall i :: 0 <= i < |segments| ==> segments[i].header.start <= segments[i].header.end
  }

  /** A stream whose inner stream, when present, yields exactly the file
      from the current position on. */
  ghost predicate Consistent(s: NzbStream) {
    s.inner.Some? ==>
      && CS.Valid(s.inner.value)
      && 0 <= s.position <= |Content(s.segments)|
      && CS.Remaining(s.inner.value) == Content(s.segments)[s.position..]
  }

  /** A fresh stream over the ordered segments, optionally with the first
      segment's already opened stream. */
  function Open(segments: seq<Segment>, fileSize: int, firstSegmentCached: bool): (s: NzbStream)
    ensures Consistent(s) && s.position == 0
  {
    NzbStream(segments, fileSize, 0, None, firstSegmentCached, false)
  }

  /** `Length`: the file size the stream was opened with. */
  function Length(s: NzbStream): int {
    s.fileSize
  }

  /** Segment headers follow one another from 0 to `fileSize`, and
      every body holds its header's count. */
  predicate Chained(segments: seq<Segment>, fileSize: int) {
    && (|segments| == 0 ==> fileSize == 0)
    && (|segments| > 0 ==> segments[0].header.start == 0 && segments[|segments| - 1].header.end == fileSize)
    && (forall i :: 0 <= i < |segments| - 1 ==> segments[i].header.end == segments[i + 1].header.start)
    && (forall i :: 0 <= i < |segments| ==> |segments[i].data| == segments[i].header.Count())
  }

  /** The headers of a well-formed file tile it, as the interpolation
      search expects. */
  lemma WellFormedTiles(segments: seq<Segment>, fileSize: int, rangeOf: int -> Range)
    requires WellFormed(segments, fileSize)
    requires forall i :: rangeOf(i) == HeaderAt(segments, i)
    ensures Tiles(rangeOf, Range(0, |segments|), Range(0, fileSize))
  {
  }

  /** In a well-formed file each segment starts where the bytes of the
      segments before it end. */
  lemma {:induction false} SegmentStart(segments: seq<Segment>, fileSize: int, i: int)
    requires WellFormed(segments, fileSize) && 0 <= i <= |segments|
    ensures |Concat(Bodies(segments)[..i])| == if i < |segments| then segments[i].header.start else fileSize
    decreases i
  {
    var b := Bodies(segments);
    if i == 0 {
      assert b[..0] == [];
    } else {
      SegmentStart(segments, fileSize, i - 1);
      assert b[..i] == b[..i - 1] + [b[i - 1]];
      ConcatAppend(b[..i - 1], [b[i - 1]]);
      ConcatSingle(b[i - 1]);
    }
  }

  /** A well-formed file is `fileSize` bytes long, and the segments from
      `i` on hold the file from segment `i`'s start on. */
  lemma SuffixContent(segments: seq<Segment>, fileSize: int, i: int)
    requires WellFormed(segments, fileSize) && 0 <= i < |segments|
    ensures |Content(segments)| == fileSize
    ensures 0 <= segments[i].header.start <= fileSize
    ensures Concat(Bodies(segments[i..])) == Content(segments)[segments[i].header.start..]
  {
    var b := Bodies(segments);
    SegmentStart(segments, fileSize, i);
    SegmentStart(segments, fileSize, |segments|);
    assert b[..|segments|] == b;
    assert b == b[..i] + b[i..];
    ConcatAppend(b[..i], b[i..]);
    assert Bodies(segments[i..]) == b[i..];
  }

  lemma ContentLength(segments: seq<Segment>, fileSize: int)
    requires WellFormed(segments, fileSize)
    ensures |Content(segments)| == fileSize
  {
    SegmentStart(segments, fileSize, |segments|);
    assert Bodies(segments)[..|segments|] == Bodies(segments);
  }

  /** `GetFileStream(rangeStart)`: from the start, the combined stream of
      all segments; elsewhere, the interpolation search finds the segment
      holding `rangeStart`, and the bytes before `rangeStart` in that
      segment are read and dropped. On a well-formed file the result
      yields the file from `rangeStart` on, and it fails (as a corrupt
      file) exactly when `rangeStart` is outside the file. */
  method GetFileStream(segments: seq<Segment>, fileSize: int, rangeStart: int)
    returns (r: Result<CS.Combined>)
    ensures r.Ok? ==> CS.Valid(r.value) && !r.value.isDisposed
    ensures r.Err? ==> r.error == CorruptFile && rangeStart != 0
    ensures WellFormed(segments, fileSize) ==>
              (r.Ok? <==> rangeStart == 0 || 0 <= rangeStart < fileSize)
    ensures WellFormed(segments, fileSize) && r.Ok? ==>
              0 <= rangeStart <= |Content(segments)| &&
              CS.Remaining(r.value) == Content(segments)[rangeStart..]
  {
    if rangeStart == 0 {
      if WellFormed(segments, fileSize) {
        ContentLength(segments, fileSize);
      }
      return Ok(CS.Open(Bodies(segments)));
    }
    var rangeOf := i => HeaderAt(segments, i);
    if WellFormed(segments, fileSize) {
      WellFormedTiles(segments, fileSize, rangeOf);
    }
    var found, probes := Find(rangeStart, Range(0, |segments|), Range(0, fileSize), rangeOf);
    if found.Err? {
      return Err(CorruptFile);
    }
    var index := found.value.index;
    var segmentStart := found.value.range.start;
    var stream := CS.Open(Bodies(segments[index..]));
    stream := CS.DiscardBytes(stream, rangeStart - segmentStart);
    if WellFormed(segments, fileSize) {
      assert segments[index].header == rangeOf(index);
      FoundSuffix(segments, fileSize, index, rangeStart);
    }
    return Ok(stream);
  }

  /** The segments from the one holding `rangeStart` on, less the bytes
      of that segment before `rangeStart`, are the file from `rangeStart`
      on. */
  lemma FoundSuffix(segments: seq<Segment>, fileSize: int, index: int, rangeStart: int)
    requires WellFormed(segments, fileSize) && 0 <= index < |segments|
    requires segments[index].header.start <= rangeStart < segments[index].header.end
    ensures 0 <= rangeStart < fileSize == |Content(segments)|
    ensures var rest := Concat(Bodies(segments[index..]));
            && rangeStart - segments[index].header.start < |rest|
            && rest[rangeStart - segments[index].header.start..] == Content(segments)[rangeStart..]
  {
    SuffixContent(segments, fileSize, index);
    var bs := Bodies(segments[index..]);
    assert segments[index].data == bs[0];
    assert Concat(bs) == bs[0] + Concat(bs[1..]);
  }

  /** `ReadAsync(buffer, offset, count)`: opens the inner stream at the
      current position if there is none, then reads through it. The bytes
      read are the file's bytes at the current position. */
  method Read(s: NzbStream, count: nat) returns (s': NzbStream, r: Result<seq<byte>>)
    requires s.inner.Some? ==> CS.Valid(s.inner.value)
    ensures s'.segments == s.segments && s'.fileSize == s.fileSize
    ensures r.Err? ==> s' == s && r.error == CorruptFile && s.inner.None? && s.position != 0
    ensures r.Ok? ==> && s'.inner.Some? && CS.Valid(s'.inner.value)
                      && s'.position == s.position + |r.value| && |r.value| <= count
    ensures WellFormed(s.segments, s.fileSize) && Consistent(s) ==>
              (r.Ok? <==> s.inner.Some? || s.position == 0 || 0 <= s.position < s.fileSize)
    ensures WellFormed(s.segments, s.fileSize) && Consistent(s) && r.Ok? ==> ReadsAt(s, s', r.value, count)
  {
    ghost var good := WellFormed(s.segments, s.fileSize) && Consistent(s);
    if good {
      ContentLength(s.segments, s.fileSize);
    }
    if s.inner.Some? {
      assert good ==> Serves(s, s.inner.value);
      s', r := ReadThrough(s, s.inner.value, count);
    } else {
      var created := GetFileStream(s.segments, s.fileSize, s.position);
      if created.Err? {
        return s, Err(created.error);
      }
      assert good ==> Serves(s, created.value);
      s', r := ReadThrough(s, created.value, count);
    }
  }

  /** A read of `count` bytes from `s` that returned `data` and left `s'`:
      the bytes are the file's bytes at the position, there are some while
      the file has bytes left, and the stream stays consistent. */
  ghost predicate ReadsAt(s: NzbStream, s': NzbStream, data: seq<byte>, count: nat) {
    && Consistent(s')
    && 0 <= s.position && s.position + |data| <= |Content(s.segments)|
    && data == Content(s.segments)[s.position..s.position + |data|]
    && (count > 0 && s.position < s.fileSize ==> |data| > 0)
  }

  /** An inner stream that yields the file from the stream's position on. */
  ghost predicate Serves(s: NzbStream, inner: CS.Combined) {
    && |Content(s.segments)| == s.fileSize && 0 <= s.position <= s.fileSize
    && CS.Remaining(inner) == Content(s.segments)[s.position..]
  }

  /** The read itself, once the inner stream is open. */
  method ReadThrough(s: NzbStream, inner: CS.Combined, count: nat) returns (s': NzbStream, r: Result<seq<byte>>)
    requires CS.Valid(inner)
    ensures s' == s.(inner := Some(CS.Read(inner, count).0), position := s.position + |CS.Read(inner, count).1|)
    ensures r == Ok(CS.Read(inner, count).1) && |r.value| <= count && CS.Valid(s'.inner.value)
    ensures Serves(s, inner) ==> ReadsAt(s, s', r.value, count)
  {
    var read := CS.Read(inner, count);
    s' := s.(inner := Some(read.0), position := s.position + |read.1|);
    r := Ok(read.1);
    if Serves(s, inner) {
      ReadStep(s, inner, count, s');
    }
  }

  /** A read through an inner stream that serves the position returns the
      next bytes of the file and keeps the stream in step. */
  lemma ReadStep(s: NzbStream, inner: CS.Combined, count: nat, s': NzbStream)
    requires CS.Valid(inner) && Serves(s, inner)
    requires s' == s.(inner := Some(CS.Read(inner, count).0), position := s.position + |CS.Read(inner, count).1|)
    ensures ReadsAt(s, s', CS.Read(inner, count).1, count)
  {
    var content := Content(s.segments);
    ReadAtPosition(content, s.position, inner, count);
    assert Content(s'.segments) == content;
  }

  /** Reading through an inner stream that yields `content` from `pos` on
      returns the bytes of `content` at `pos` and leaves the rest. */
  lemma ReadAtPosition(content: seq<byte>, pos: int, inner: CS.Combined, count: nat)
    requires CS.Valid(inner)
    requires 0 <= pos <= |content| && CS.Remaining(inner) == content[pos..]
    ensures var (inner', data) := CS.Read(inner, count);
            && pos + |data| <= |content|
            && data == content[pos..pos + |data|]
            && CS.Remaining(inner') == content[pos + |data|..]
            && (count > 0 && pos < |content| ==> |data| > 0)
  {
    var (inner', data) := CS.Read(inner, count);
    CS.ReadProgress(inner, count);
    SplitSuffix(content, pos, data, CS.Remaining(inner'));
  }

  lemma SplitSuffix(content: seq<byte>, pos: int, data: seq<byte>, rest: seq<byte>)
    requires 0 <= pos <= |content| && data + rest == content[pos..]
    ensures pos + |data| <= |content|
    ensures data == content[pos..pos + |data|] && rest == content[pos + |data|..]
  {
    assert data == (data + rest)[..|data|];
    assert rest == (data + rest)[|data|..];
  }

  /** `Seek(offset, origin)`: from the start or the current position only.
      Seeking to the current position changes nothing; seeking elsewhere
      drops the inner stream and the cached first segment. */
  function Seek(s: NzbStream, offset: int, origin: SeekOrigin): (r: Result<NzbStream>)
    ensures r.Err? <==> origin == End
    ensures r.Err? ==> r.error == InvalidOperation
    ensures r.Ok? ==> && r.value.position == (if origin == Begin then offset else s.position + offset)
                      && r.value.segments == s.segments && r.value.fileSize == s.fileSize
    ensures r.Ok? && r.value.position == s.position ==> r.value == s
    ensures r.Ok? && r.value.position != s.position ==> r.value.inner.None? && !r.value.firstSegmentCached
    ensures Consistent(s) && r.Ok? ==> Consistent(r.value)
  {
    if origin == End then Err(InvalidOperation)
    else
      var absoluteOffset := if origin == Begin then offset else s.position + offset;
      if absoluteOffset == s.position then Ok(s)
      else Ok(s.(position := absoluteOffset, inner := None, firstSegmentCached := false))
  }

  /** `Dispose` / `DisposeAsync`: disposes the inner stream, once. */
  function Dispose(s: NzbStream): (s': NzbStream)
    requires s.inner.Some? ==> CS.Valid(s.inner.value)
    ensures s'.disposed && s'.position == s.position
    ensures s.disposed ==> s' == s
    ensures !s.disposed && s.inner.Some? ==> s'.inner.Some? && s'.inner.value.isDisposed
  {
    if s.disposed then s
    else if s.inner.Some? then s.(inner := Some(CS.Dispose(s.inner.value)), disposed := true)
    else s.(disposed := true)
  }
}
