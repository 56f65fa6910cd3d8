/** `FileProcessor` (backend/Queue/FileProcessors/FileProcessor.cs): a plain
    NZB file becomes one file entry whose size is read from the yEnc header
    of its first segment.

    Fetching that header is a network call: its outcome is a parameter. */
module FileProcessor {
  import opened Text
  import opened Wrappers
  import FilenameUtil

  /** `CanProcess`: every file except PAR2 recovery files. */
  predicate CanProcess(name: string) {
    !EndsWithIgnoreCase(name, ".par2")
  }

  /** What processing a plain file yields: its segment ids in document
      order, its chosen name and its size. */
  datatype FileResult = FileResult(segmentIds: seq<string>, fileName: string, fileSize: int)

  /** `ProcessAsync`. `header` is the outcome of fetching the first
      segment's yEnc header: its file size, or the failure. `Ok(None)` is
      the skipped file. */
  function ProcessAsync(segmentIds: seq<string>, fileName: string, header: Result<int>): (r: Result<Option<FileResult>>)
    ensures |segmentIds| == 0 ==> r == Err(IndexOutOfRange)
    ensures |segmentIds| > 0 && header.Ok? ==> r == Ok(Some(FileResult(segmentIds, fileName, header.value)))
    ensures |segmentIds| > 0 && header.Err? ==>
              if header.error == ArticleNotFound && !FilenameUtil.IsVideoFile(fileName) then r == Ok(None)
              else r == Err(header.error)
  {
    if |segmentIds| == 0 then Err(IndexOutOfRange)
    else match header
      case Ok(size) => Ok(Some(FileResult(segmentIds, fileName, size)))
      case Err(e) =>
        if e == ArticleNotFound && !FilenameUtil.IsVideoFile(fileName) then Ok(None) else Err(e)
  }

  /** A missing article is forgiven exactly for non-video files; every other
      failure reaches the caller unchanged. */
  lemma MissingArticleRule(segmentIds: seq<string>, fileName: string, e: Error)
    requires |segmentIds| > 0
    ensures ProcessAsync(segmentIds, fileName, Err(e)).Ok? <==> e == ArticleNotFound && !FilenameUtil.IsVideoFile(fileName)
    ensures ProcessAsync(segmentIds, fileName, Err(e)).Err? ==> ProcessAsync(segmentIds, fileName, Err(e)).error == e
  {
  }

  /** A PAR2 name is refused whatever the case of its extension. */
  lemma Par2Refused(base: string, ext: string)
    requires |ext| == 5 && ToLower(ext) == ".par2"
    ensures !CanProcess(base + ext)
  {
    assert (base + ext)[|base + ext| - 5..] == ext;
  }
}
