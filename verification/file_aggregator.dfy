/** `FileAggregator` (backend/Queue/FileAggregators/FileAggregator.cs): one
    NZB-file entry per processed plain file, directly under the job's mount
    folder. Item ids come from a counter. */
module FileAggregator {
  import opened Wrappers
  import DavItems
  import FP = FileProcessor
  import BP = BaseProcessor

  /** `DavNzbFile`: the segment ids of an NZB-file entry. */
  datatype DavNzbFile = DavNzbFile(id: nat, segmentIds: seq<string>)

  datatype Entry = Entry(item: DavItems.DavItem, nzbFile: DavNzbFile)

  /** The plain-file results that get an entry: those with a name. */
  function Kept(results: seq<BP.ProcessorResult>): (r: seq<FP.FileResult>)
    ensures forall f :: f in r <==> BP.FilePart(f) in results && f.fileName != ""
    decreases |results|
  {
    if |results| == 0 then []
    else
      var rest := Kept(results[1..]);
      assert forall x :: x in results <==> x == results[0] || x in results[1..];
      if results[0].FilePart? && results[0].file.fileName != "" then [results[0].file] + rest else rest
  }

  /** The entry of one kept file. */
  function EntryOf(f: FP.FileResult, mountId: nat, id: nat): Entry {
    Entry(DavItems.DavItem(id, Some(mountId), f.fileName, Some(f.fileSize), DavItems.NzbFile),
          DavNzbFile(id, f.segmentIds))
  }

  /** `UpdateDatabase`: entries for the kept files in order, numbered from
      `nextId`. */
  function UpdateDatabase(results: seq<BP.ProcessorResult>, mountId: nat, nextId: nat): (r: seq<Entry>)
    ensures |r| == |Kept(results)|
    ensures forall i :: 0 <= i < |r| ==> r[i] == EntryOf(Kept(results)[i], mountId, nextId + i)
    decreases |results|
  {
    if |results| == 0 then []
    else if results[0].FilePart? && results[0].file.fileName != "" then
      [EntryOf(results[0].file, mountId, nextId)] + UpdateDatabase(results[1..], mountId, nextId + 1)
    else UpdateDatabase(results[1..], mountId, nextId)
  }

  /** Every entry is an NZB file under the mount folder, named and sized
      after a kept result, sharing its id with its segment list, and no two
      entries share an id. */
  lemma EntriesWellFormed(results: seq<BP.ProcessorResult>, mountId: nat, nextId: nat)
    ensures var r := UpdateDatabase(results, mountId, nextId);
            && (forall i :: 0 <= i < |r| ==>
                  && r[i].item.parentId == Some(mountId) && r[i].item.itemType == DavItems.NzbFile
                  && r[i].item.id == r[i].nzbFile.id && r[i].item.id >= nextId
                  && r[i].item.name != ""
                  && exists f :: BP.FilePart(f) in results && f.fileName == r[i].item.name
                                 && r[i].nzbFile.segmentIds == f.segmentIds && r[i].item.fileSize == Some(f.fileSize))
            && (forall i, j :: 0 <= i < j < |r| ==> r[i].item.id != r[j].item.id)
  {
    var r := UpdateDatabase(results, mountId, nextId);
    var kept := Kept(results);
    forall i | 0 <= i < |r|
      ensures exists f :: BP.FilePart(f) in results && f.fileName == r[i].item.name
                          && r[i].nzbFile.segmentIds == f.segmentIds && r[i].item.fileSize == Some(f.fileSize)
    {
      assert kept[i] in kept;
    }
  }
}
