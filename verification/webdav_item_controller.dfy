/** `ListWebdavDirectoryController`
    (backend/Api/Controllers/GetWebdavItem/GetWebdavItemController.cs): the
    `view/{path}` endpoint that serves a stored file, whole or as one byte
    range.

    The store lookup and the MIME-type table are parameters. A file's
    readable stream is its content as a byte sequence, and seeking is
    dropping a prefix of it; what backs the stream matters only where it
    fails, which `SendFailure` states. */
module GetWebdavItemController {
  import opened Wrappers
  import opened Bytes
  import opened Text
  import Paths
  import LL = LimitedLengthStream
  import R = GetWebdavItemRequest
  import FilenameUtil

  /** What serves a file's bytes: a memory stream (symlinks, empty files,
      queued NZB documents), an `NzbFileStream` over the file's segments
      (UsenetStreamingClient.cs), or a `RarFileStream` over a member's
      parts (DatabaseStoreRarFile.cs). */
  datatype Backing = InMemory | Segments | RarParts

  /** What the store finds under a path. */
  datatype Target = Missing | Collection | File(name: string, content: seq<byte>, backing: Backing)

  /** The `Content-Range` header: a served span, or the size alone for
      an unsatisfiable range. */
  datatype ContentRange = Span(first: int, last: int, size: int) | Unsatisfied(size: int)

  datatype Response = Response(
    status: int,
    contentType: string,
    contentRange: Option<ContentRange>,
    contentLength: int,
    body: seq<byte>)

  /** The content type by extension, case-insensitively: Matroska is
      served as WebM, .rclonelink and .nfo as plain text; anything else is
      looked up in the MIME table by file name, with a binary fallback. */
  function GetContentType(item: string, mimeOf: string -> Option<string>): (r: string)
    ensures ToLower(Paths.GetExtension(item)) == ".mkv" ==> r == "video/webm"
    ensures ToLower(Paths.GetExtension(item)) in [".rclonelink", ".nfo"] ==> r == "text/plain"
    ensures ToLower(Paths.GetExtension(item)) !in [".mkv", ".rclonelink", ".nfo"] ==>
              r == mimeOf(Paths.GetFileName(item)).GetOr("application/octet-stream")
  {
    var extension := ToLower(Paths.GetExtension(item));
    if extension == ".mkv" then "video/webm"
    else if extension == ".rclonelink" then "text/plain"
    else if extension == ".nfo" then "text/plain"
    else match mimeOf(Paths.GetFileName(item))
      case Some(mimeType) => mimeType
      case None => "application/octet-stream"
  }

  /** Only the last extension counts, in any letter case: `x.MKV` is WebM
      and `x.mkv.nfo` is plain text. */
  lemma ContentTypeOfExtension(base: string, ext: string, mimeOf: string -> Option<string>)
    requires FilenameUtil.ExtensionLike(ext)
    ensures ToLower(ext) == ".mkv" ==> GetContentType(base + ext, mimeOf) == "video/webm"
    ensures ToLower(ext) == ".nfo" || ToLower(ext) == ".rclonelink" ==>
              GetContentType(base + ext, mimeOf) == "text/plain"
  {
    FilenameUtil.ExtensionOfAppend(base, ext);
  }

  /** The response as the source builds it: a start sends 206 with
      `Content-Length` 1 + end - start, the end defaulting to the last
      byte; the body is the content from the start, cut to that length
      only when the request named an end. */
  function RespondAsWritten(content: seq<byte>, contentType: string, b: R.Bounds): (r: Response)
    ensures b.start.None? ==> r.status == 200 && r.body == content && r.contentLength == |content|
    ensures b.start.Some? ==> r.status == 206 && Take(content, b.start.value) + r.body <= content
    ensures b.start.Some? ==> r.contentLength == ChunkSize(|content|, b)
    ensures b.start.Some? && b.end.None? ==> Take(content, b.start.value) + r.body == content
  {
    var fileSize := |content|;
    if b.start.None? then Response(200, contentType, None, fileSize, content)
    else
      var start := b.start.value;
      var end := b.end.GetOr(fileSize - 1);
      var chunkSize := ChunkSize(fileSize, b);
      var rest := Drop(content, start);
      var body := if b.end.Some? then LL.Content(LL.LimitLength(rest, chunkSize)) else rest;
      Response(206, contentType, Some(Span(start, end, fileSize)), chunkSize, body)
  }

  /** The `Content-Length` the source computes for a range:
      `1 + end - start`, the end defaulting to the file's last byte. */
  function ChunkSize(size: nat, b: R.Bounds): (r: int)
    requires b.start.Some?
    ensures b.end.None? ==> r == size - b.start.value
    ensures b.end.Some? ==> r == b.end.value - b.start.value + 1
  {
    1 + b.end.GetOr(size - 1) - b.start.value
  }

  /** Where the source's response fails before a byte is sent, in the
      order it meets the failures. The host refuses a negative
      `Content-Length` as it is assigned, so a range whose computed chunk is
      negative raises an invalid-operation error. Otherwise the first read
      of the copy fails for a stream-backed file opened at a non-zero start
      at or past its end: `NzbFileStream` finds no segment holding the
      start ("Corrupt file"), and `RarFileStream` finds no part, an
      out-of-range error. A range that names an end before its start is
      read through an empty limited view, which never touches the file's
      stream. */
  function SendFailure(backing: Backing, size: nat, b: R.Bounds): (r: Option<Error>)
    ensures r.Some? ==> b.start.Some?
    ensures b.start.Some? && ChunkSize(size, b) < 0 ==> r == Some(InvalidOperation)
    ensures r.Some? && r.value != InvalidOperation ==>
              && b.start.Some? && 0 < b.start.value && size <= b.start.value
              && ChunkSize(size, b) >= 0 && (b.end.Some? ==> b.start.value <= b.end.value)
              && r.value == (if backing == Segments then CorruptFile else ArgumentOutOfRange)
    ensures backing == InMemory ==> (r.Some? <==> b.start.Some? && ChunkSize(size, b) < 0)
    ensures && backing != InMemory && b.start.Some? && 0 < b.start.value && size <= b.start.value
            && ChunkSize(size, b) >= 0 && (b.end.None? || b.start.value <= b.end.value)
            ==> r.Some?
  {
    if b.start.None? then None
    else if ChunkSize(size, b) < 0 then Some(InvalidOperation)
    else
      var start := b.start.value;
      var readsFile := b.end.None? || start <= b.end.value;
      if !readsFile || start == 0 || start < size then None
      else match backing
        case InMemory => None
        case Segments => Some(CorruptFile)
        case RarParts => Some(ArgumentOutOfRange)
  }

  /** A start at or past the end of the file is answered 206 with an empty
      body when the file lives in memory, and fails on the first read when
      segments or RAR parts serve it; the corrected response is 416 either
      way. */
  lemma PastEndAsWritten(content: seq<byte>, contentType: string, backing: Backing, start: nat, end: Option<nat>)
    requires 0 < start && |content| <= start
    requires end.Some? ==> start <= end.value
    requires end.None? ==> start == |content|
    ensures var b := R.Bounds(Some(start), end);
            var r := RespondAsWritten(content, contentType, b);
            && (backing == InMemory ==> SendFailure(backing, |content|, b).None? && r.status == 206 && r.body == [])
            && (backing == Segments ==> SendFailure(backing, |content|, b) == Some(CorruptFile))
            && (backing == RarParts ==> SendFailure(backing, |content|, b) == Some(ArgumentOutOfRange))
    ensures Respond(content, contentType, R.FromTo(start, end)).status == 416
  {
    var b := R.Bounds(Some(start), end);
    assert Drop(content, start) == [];
  }

  /** A range whose end lies at or past the end of the file, from a start
      inside it, is announced with more bytes than the body carries. */
  lemma LengthMismatchAsWritten(content: seq<byte>, contentType: string, start: int, end: int)
    requires 0 <= start < |content| <= end
    ensures var r := RespondAsWritten(content, contentType, R.Bounds(Some(start), Some(end)));
            r.contentLength > |r.body|
  {
    var rest := Drop(content, start);
    assert |rest| == |content| - |Take(content, start)|;
  }

  /** A range whose end lies more than one byte before its start computes
      a negative `Content-Length`, which the host refuses, so the response
      fails whatever backs the file; the corrected response ignores the
      range and sends the whole file. */
  lemma InvertedRangeAsWritten(content: seq<byte>, contentType: string, backing: Backing, start: nat, end: nat)
    requires end + 1 < start
    ensures ChunkSize(|content|, R.Bounds(Some(start), Some(end))) < 0
    ensures SendFailure(backing, |content|, R.Bounds(Some(start), Some(end))) == Some(InvalidOperation)
    ensures Respond(content, contentType, R.FromTo(start, Some(end))) == Response(200, contentType, None, |content|, content)
  {
  }

  /** Where a range lands in a file of the given size. */
  datatype Resolved = Whole | Part(first: nat, last: nat) | Unsatisfiable

  /** Resolution per sections 14.1.2 and 14.2 of RFC 9110: an end past the file is
      clamped to its last byte, a suffix names the last bytes, a range
      starting past the file cannot be satisfied, and an invalid range
      (end before start) is ignored. */
  function ResolveRange(range: R.RangeSpec, size: nat): (r: Resolved)
    ensures r.Part? ==> r.first <= r.last < size
    ensures r.Unsatisfiable? ==> size == 0 || range.Suffix? || (range.FromTo? && range.start >= size)
  {
    match range
    case NoRange => Whole
    case FromTo(s, e) =>
      if e.Some? && e.value < s then Whole
      else if s >= size then Unsatisfiable
      else Part(s, if e.Some? && e.value < size then e.value else size - 1)
    case Suffix(n) =>
      if n == 0 || size == 0 then Unsatisfiable
      else Part(if n >= size then 0 else size - n, size - 1)
  }

  /** The response with the range resolved first. */
  function Respond(content: seq<byte>, contentType: string, range: R.RangeSpec): (r: Response)
    ensures r.contentLength == |r.body|
    ensures r.status == 200 || r.status == 206 || r.status == 416
  {
    match ResolveRange(range, |content|)
    case Whole => Response(200, contentType, None, |content|, content)
    case Part(first, last) =>
      var body := content[first..last + 1];
      Response(206, contentType, Some(Span(first, last, |content|)), |body|, body)
    case Unsatisfiable => Response(416, contentType, Some(Unsatisfied(|content|)), 0, [])
  }

  /** Every 206 response carries exactly the announced span of the file. */
  lemma RespondServesSpan(content: seq<byte>, contentType: string, range: R.RangeSpec)
    ensures var r := Respond(content, contentType, range);
            r.status == 206 <==> r.contentRange.Some? && r.contentRange.value.Span?
    ensures var r := Respond(content, contentType, range);
            r.status == 206 ==>
              var c := r.contentRange.value;
              && 0 <= c.first <= c.last < |content| == c.size
              && r.body == content[c.first..c.last + 1]
  {
  }

  /** Where the source's response is right — no range, or a range inside
      the file — both agree. */
  lemma AgreesInsideFile(content: seq<byte>, contentType: string, start: nat, end: Option<nat>)
    requires start < |content|
    requires end.Some? ==> start <= end.value < |content|
    ensures RespondAsWritten(content, contentType, R.Bounds(Some(start), if end.Some? then Some(end.value) else None))
         == Respond(content, contentType, R.FromTo(start, end))
    ensures RespondAsWritten(content, contentType, R.Bounds(None, None)) == Respond(content, contentType, R.NoRange)
  {
    var rest := Drop(content, start);
    assert rest == content[start..];
    if end.Some? {
      assert Take(rest, 1 + end.value - start) == content[start..end.value + 1];
    }
  }

  /** A suffix range of n bytes serves the last n bytes, where the source
      serves the bytes from offset n on. */
  lemma SuffixServesTail(content: seq<byte>, contentType: string, n: nat)
    requires 0 < n <= |content|
    ensures Respond(content, contentType, R.Suffix(n)).body == content[|content| - n..]
    ensures RespondAsWritten(content, contentType, R.Bounds(Some(n), None)).body == content[n..]
  {
    assert Drop(content, n) == content[n..];
  }

  /** `HandleRequest`: a bad download key answers 401; otherwise a
      malformed range fails first, then a missing item or a collection is
      a bad request, and a file is served as the source builds the
      response unless sending it fails as `SendFailure` states. */
  function HandleRequest(path: string, keyValid: bool, rangeHeader: string,
                         lookup: string -> Target, mimeOf: string -> Option<string>): (r: Result<Response>)
    ensures !keyValid ==> r.Ok? && r.value.status == 401 && r.value.body == []
    ensures keyValid && R.ParseRangeAsWritten(rangeHeader).Err? ==> r == Err(R.ParseRangeAsWritten(rangeHeader).error)
    ensures keyValid && R.ParseRangeAsWritten(rangeHeader).Ok? ==>
              var f := lookup(R.NormalizePath(path));
              var b := R.ParseRangeAsWritten(rangeHeader).value;
              && (r.Ok? <==> f.File? && SendFailure(f.backing, |f.content|, b).None?)
              && (r.Err? && !f.File? ==> r.error == BadHttpRequest("The file does not exist."))
              && (r.Err? && f.File? ==> SendFailure(f.backing, |f.content|, b) == Some(r.error))
    ensures r.Ok? && keyValid ==>
              var f := lookup(R.NormalizePath(path));
              var b := R.ParseRangeAsWritten(rangeHeader).value;
              && f.File?
              && (b.start.None? ==> r.value.status == 200 && r.value.body == f.content)
              && (b.start.Some? ==> r.value.status == 206 && Take(f.content, b.start.value) + r.value.body <= f.content)
  {
    match R.New(path, keyValid, rangeHeader)
    case Err(Unauthorized) => Ok(Response(401, "", None, 0, []))
    case Err(e) => Err(e)
    case Ok(request) =>
      match lookup(request.item)
      case Missing => Err(BadHttpRequest("The file does not exist."))
      case Collection => Err(BadHttpRequest("The file does not exist."))
      case File(name, content, backing) =>
        match SendFailure(backing, |content|, request.bounds)
        case Some(e) => Err(e)
        case None => Ok(RespondAsWritten(content, GetContentType(name, mimeOf), request.bounds))
  }

  /** `HandleRequest` with suffix ranges kept apart and the range resolved
      before the response is built. */
  function HandleRequestCorrected(path: string, keyValid: bool, rangeHeader: string,
                                  lookup: string -> Target, mimeOf: string -> Option<string>): (r: Result<Response>)
    ensures !keyValid ==> r.Ok? && r.value.status == 401 && r.value.body == []
    ensures keyValid && R.ParseRange(rangeHeader).Err? ==> r == Err(R.ParseRange(rangeHeader).error)
    ensures keyValid && R.ParseRange(rangeHeader).Ok? ==>
              (r.Ok? <==> lookup(R.NormalizePath(path)).File?)
    ensures r.Err? && keyValid && R.ParseRange(rangeHeader).Ok? ==> r.error == BadHttpRequest("The file does not exist.")
    ensures r.Ok? && keyValid ==>
              var f := lookup(R.NormalizePath(path));
              && f.File? && r.value.contentLength == |r.value.body|
              && (r.value.status == 206 ==>
                    && r.value.contentRange.Some? && r.value.contentRange.value.Span?
                    && var c := r.value.contentRange.value;
                       0 <= c.first <= c.last < |f.content| && r.value.body == f.content[c.first..c.last + 1])
  {
    match R.NewCorrected(path, keyValid, rangeHeader)
    case Err(Unauthorized) => Ok(Response(401, "", None, 0, []))
    case Err(e) => Err(e)
    case Ok(request) =>
      match lookup(request.item)
      case Missing => Err(BadHttpRequest("The file does not exist."))
      case Collection => Err(BadHttpRequest("The file does not exist."))
      case File(name, content, _) =>
        RespondServesSpan(content, GetContentType(name, mimeOf), request.range);
        Ok(Respond(content, GetContentType(name, mimeOf), request.range))
  }

  /** A range header the source reads correctly: none, or a range from a
      start inside the target file to an end inside it. */
  predicate ReadsCorrectly(rangeHeader: string, target: Target) {
    && (StartsWith(rangeHeader, "bytes=") ==> !StartsWith(rangeHeader[6..], "-"))
    && (target.File? && R.ParseRange(rangeHeader).Ok? ==>
          match R.ParseRange(rangeHeader).value
          case NoRange => true
          case FromTo(s, e) => s < |target.content| && (e.Some? ==> s <= e.value < |target.content|)
          case Suffix(_) => false)
  }

  /** Both handlers answer alike whenever the source reads the range
      correctly: the as-written handler departs from the corrected one only
      on suffix ranges and ranges reaching outside the file. */
  lemma HandlersAgree(path: string, keyValid: bool, rangeHeader: string,
                      lookup: string -> Target, mimeOf: string -> Option<string>)
    requires ReadsCorrectly(rangeHeader, lookup(R.NormalizePath(path)))
    ensures HandleRequest(path, keyValid, rangeHeader, lookup, mimeOf)
         == HandleRequestCorrected(path, keyValid, rangeHeader, lookup, mimeOf)
  {
    R.ParsersAgree(rangeHeader);
    var f := lookup(R.NormalizePath(path));
    if keyValid && f.File? && R.ParseRange(rangeHeader).Ok? {
      ServesAlike(f.content, GetContentType(f.name, mimeOf), rangeHeader);
    }
  }

  lemma ServesAlike(content: seq<byte>, contentType: string, rangeHeader: string)
    requires ReadsCorrectly(rangeHeader, File("", content, InMemory)) && R.ParseRange(rangeHeader).Ok?
    ensures R.ParseRangeAsWritten(rangeHeader).Ok?
    ensures RespondAsWritten(content, contentType, R.ParseRangeAsWritten(rangeHeader).value)
         == Respond(content, contentType, R.ParseRange(rangeHeader).value)
  {
    R.ParsersAgree(rangeHeader);
    match R.ParseRange(rangeHeader).value
    case NoRange =>
      assert R.ParseRangeAsWritten(rangeHeader).value == R.Bounds(None, None);
    case FromTo(s, e) =>
      AgreesInsideFile(content, contentType, s, e);
  }
}
