/** `AddFileRequest` and `AddFileController`
    (backend/Api/SabControllers/AddFile/): the SABnzbd `addfile` call that
    queues an uploaded NZB document.

    The form's files and the query parameters are inputs; parsing the NZB
    document is left to the caller, which passes the segment sizes. */
module AddFileRequest {
  import W = Wrappers
  import opened Text
  import Paths
  import QueueStore

  /** `QueueItem.PriorityOption`, with its enum values below. */
  datatype PriorityOption = Default | Duplicate | Paused | Low | Normal | High | Force

  function PriorityValue(p: PriorityOption): int {
    match p
    case Default => -100
    case Duplicate => -3
    case Paused => -2
    case Low => -1
    case Normal => 0
    case High => 1
    case Force => 2
  }

  /** `QueueItem.PostProcessingOption`, with its enum values below. */
  datatype PostProcessingOption = Default | None | Repair | RepairUnpack | RepairUnpackDelete

  function PostProcessingValue(p: PostProcessingOption): int {
    match p
    case Default => -1
    case None => 0
    case Repair => 1
    case RepairUnpack => 2
    case RepairUnpackDelete => 3
  }

  /** An integer as SABnzbd writes it in a query string. */
  function ShowInt(i: int): string {
    if i < 0 then "-" + ShowNat(-i) else ShowNat(i)
  }

  /** The SABnzbd priority codes; the default code and a missing
      parameter both mean normal priority. */
  function MapPriorityOption(priority: W.Option<string>): (r: W.Result<PriorityOption>)
    ensures r.Ok? ==> !r.value.Default?
    ensures r.Err? ==> r.error == W.BadHttpRequest("Invalid priority")
    ensures priority.None? ==> r == W.Ok(PriorityOption.Normal)
  {
    match priority
    case None => W.Ok(PriorityOption.Normal)
    case Some(code) =>
      if code == "-100" then W.Ok(PriorityOption.Normal)
      else if code == "-3" then W.Ok(Duplicate)
      else if code == "-2" then W.Ok(Paused)
      else if code == "-1" then W.Ok(Low)
      else if code == "0" then W.Ok(PriorityOption.Normal)
      else if code == "1" then W.Ok(High)
      else if code == "2" then W.Ok(Force)
      else W.Err(W.BadHttpRequest("Invalid priority"))
  }

  /** The code SABnzbd sends for a priority: its enum value in decimal. */
  function PriorityCode(p: PriorityOption): (code: string)
    ensures code == ShowInt(PriorityValue(p))
  {
    match p
    case Default =>
      assert ShowNat(100) == ShowNat(10) + "0";
      "-100"
    case Duplicate => "-3"
    case Paused => "-2"
    case Low => "-1"
    case Normal => "0"
    case High => "1"
    case Force => "2"
  }

  /** The map inverts `PriorityCode` on every option but the default,
      whose code reads as normal. */
  lemma PriorityCodes(p: PriorityOption, code: string)
    ensures !p.Default? ==> MapPriorityOption(W.Some(PriorityCode(p))) == W.Ok(p)
    ensures MapPriorityOption(W.Some(PriorityCode(PriorityOption.Default))) == W.Ok(PriorityOption.Normal)
    ensures MapPriorityOption(W.Some(code)).Ok? && code != PriorityCode(PriorityOption.Default) ==>
              PriorityCode(MapPriorityOption(W.Some(code)).value) == code
  {
  }

  /** The SABnzbd post-processing codes; the default code and a missing
      parameter both mean no post-processing. */
  function MapPostProcessingOption(postProcessing: W.Option<string>): (r: W.Result<PostProcessingOption>)
    ensures r.Ok? ==> !r.value.Default?
    ensures r.Err? ==> r.error == W.BadHttpRequest("Invalid pp param")
    ensures postProcessing.None? ==> r == W.Ok(PostProcessingOption.None)
  {
    match postProcessing
    case None => W.Ok(PostProcessingOption.None)
    case Some(code) =>
      if code == "-1" then W.Ok(PostProcessingOption.None)
      else if code == "0" then W.Ok(PostProcessingOption.None)
      else if code == "1" then W.Ok(Repair)
      else if code == "2" then W.Ok(RepairUnpack)
      else if code == "3" then W.Ok(RepairUnpackDelete)
      else W.Err(W.BadHttpRequest("Invalid pp param"))
  }

  /** The code SABnzbd sends for a post-processing option: its enum
      value in decimal. */
  function PostProcessingCode(p: PostProcessingOption): (code: string)
    ensures code == ShowInt(PostProcessingValue(p))
  {
    match p
    case Default => "-1"
    case None => "0"
    case Repair => "1"
    case RepairUnpack => "2"
    case RepairUnpackDelete => "3"
  }

  /** The map inverts `PostProcessingCode` on every option but the
      default, whose code reads as none. */
  lemma PostProcessingCodes(p: PostProcessingOption, code: string)
    ensures !p.Default? ==> MapPostProcessingOption(W.Some(PostProcessingCode(p))) == W.Ok(p)
    ensures MapPostProcessingOption(W.Some(PostProcessingCode(PostProcessingOption.Default)))
         == W.Ok(PostProcessingOption.None)
    ensures MapPostProcessingOption(W.Some(code)).Ok? && code != PostProcessingCode(PostProcessingOption.Default) ==>
              PostProcessingCode(MapPostProcessingOption(W.Some(code)).value) == code
  {
  }

  /** An uploaded form file. */
  datatype FormFile = FormFile(fileName: string, contentType: string, contents: string)

  datatype Request = Request(
    fileName: string,
    mimeType: string,
    nzbFileContents: string,
    category: string,
    priority: PriorityOption,
    postProcessing: PostProcessingOption)

  const NzbMimeType := "application/x-nzb"

  /** `AddFileRequest.New`: the `nzbFile` form file, else the `name` one;
      then the MIME type, the category, the priority and the
      post-processing option are checked in that order. */
  function New(nzbFile: W.Option<FormFile>, nameFile: W.Option<FormFile>, cat: W.Option<string>,
               priority: W.Option<string>, pp: W.Option<string>): (r: W.Result<Request>)
    ensures nzbFile.None? && nameFile.None? ==> r == W.Err(W.BadHttpRequest("Invalid nzbFile/name param"))
    ensures var file := if nzbFile.Some? then nzbFile else nameFile;
            file.Some? ==>
              && (file.value.contentType != NzbMimeType ==>
                    r == W.Err(W.BadHttpRequest("File mime type must be application/x-nzb")))
              && (file.value.contentType == NzbMimeType && cat.None? ==>
                    r == W.Err(W.BadHttpRequest("Invalid cat param")))
              && (file.value.contentType == NzbMimeType && cat.Some? ==>
                    (r.Ok? <==> MapPriorityOption(priority).Ok? && MapPostProcessingOption(pp).Ok?))
              && (r.Ok? ==> r.value == Request(file.value.fileName, NzbMimeType, file.value.contents, cat.value,
                                               MapPriorityOption(priority).value, MapPostProcessingOption(pp).value))
    ensures (nzbFile.Some? || nameFile.Some?) && cat.Some? && r.Err? && MapPriorityOption(priority).Ok? ==>
              r.error == W.BadHttpRequest("File mime type must be application/x-nzb")
              || r.error == MapPostProcessingOption(pp).error
  {
    var file := if nzbFile.Some? then nzbFile else nameFile;
    if file.None? then W.Err(W.BadHttpRequest("Invalid nzbFile/name param"))
    else if file.value.contentType != NzbMimeType then W.Err(W.BadHttpRequest("File mime type must be application/x-nzb"))
    else if cat.None? then W.Err(W.BadHttpRequest("Invalid cat param"))
    else match MapPriorityOption(priority)
      case Err(e) => W.Err(e)
      case Ok(p) =>
        match MapPostProcessingOption(pp)
        case Err(e) => W.Err(e)
        case Ok(post) => W.Ok(Request(file.value.fileName, file.value.contentType, file.value.contents, cat.value, p, post))
  }

  function Sum(sizes: seq<int>): int {
    if |sizes| == 0 then 0 else sizes[0] + Sum(sizes[1..])
  }

  /** `AddFileAsync`: the queued job for a request. The id, the clock and
      the document's segment sizes are inputs. */
  function AddFile(request: Request, id: nat, now: int, segmentSizes: seq<int>): (q: QueueStore.QueueItem)
    ensures q.id == id && q.createdAt == now && q.fileName == request.fileName
    ensures Paths.GetFileName(q.fileName) == Paths.GetFileNameWithoutExtension(q.fileName) + Paths.GetExtension(q.fileName)
            ==> Paths.GetFileName(request.fileName) == q.jobName + Paths.GetExtension(request.fileName)
    ensures q.priority == PriorityValue(request.priority) && q.postProcessing == PostProcessingValue(request.postProcessing)
    ensures QueueStore.Eligible(q, now)
  {
    QueueStore.QueueItem(id, now, request.fileName, Paths.GetFileNameWithoutExtension(request.fileName),
                         request.category, PriorityValue(request.priority),
                         PostProcessingValue(request.postProcessing), Sum(segmentSizes), W.None)
  }

  /** A request from `New` queues a job whose priority is one of the
      source's non-default enum values, the one the SABnzbd code names. */
  lemma QueuedPriority(nzbFile: W.Option<FormFile>, nameFile: W.Option<FormFile>, cat: W.Option<string>,
                       priority: W.Option<string>, pp: W.Option<string>, id: nat, now: int, sizes: seq<int>)
    requires New(nzbFile, nameFile, cat, priority, pp).Ok?
    ensures var q := AddFile(New(nzbFile, nameFile, cat, priority, pp).value, id, now, sizes);
            && -3 <= q.priority <= 2
            && (priority.None? || priority == W.Some("-100") ==> q.priority == 0)
            && (priority.Some? && priority.value != "-100" ==> ShowInt(q.priority) == priority.value)
  {
    var r := New(nzbFile, nameFile, cat, priority, pp).value;
    assert r.priority == MapPriorityOption(priority).value;
    if priority.Some? {
      PriorityCodes(r.priority, priority.value);
    }
  }
}
