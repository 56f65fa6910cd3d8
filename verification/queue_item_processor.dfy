/** `QueueItemProcessor` (backend/Queue/QueueItemProcessor.cs): what one
    queued job does to the database.

    The database is a value (`Db`); item ids come from a counter. The
    network work in between (resolving file names, running the processors)
    is represented by its outcome: the resolved names are part of each
    `NzbFileRef`, and `processed` is what waiting on all processors gave.
    The caller (the queue manager) runs one job at a time. */
module QueueItemProcessor {
  import opened Wrappers
  import DavItems
  import QS = QueueStore
  import RP = RarProcessor
  import FP = FileProcessor
  import BP = BaseProcessor
  import RA = RarAggregator
  import FA = FileAggregator
  import EV = EnsureImportableVideoValidator

  /** One minute, in the clock's milliseconds. */
  const RetryDelay: int := 60_000

  datatype DownloadStatus = Completed | Failed

  datatype HistoryItem = HistoryItem(
    id: nat,
    fileName: string,
    jobName: string,
    category: string,
    status: DownloadStatus,
    totalSegmentBytes: int,
    downloadTimeSeconds: int,
    failMessage: Option<string>)

  datatype Db = Db(queue: seq<QS.QueueItem>, history: seq<HistoryItem>, items: seq<DavItems.DavItem>, nextId: nat)

  /** `CreateHistoryItem`: failed exactly when there is an error message. */
  function CreateHistoryItem(q: QS.QueueItem, elapsedSeconds: int, error: Option<string>): (h: HistoryItem)
    ensures h.status == Completed <==> error.None?
    ensures h.id == q.id && h.failMessage == error && h.jobName == q.jobName && h.category == q.category
  {
    HistoryItem(q.id, q.fileName, q.jobName, q.category, if error.None? then Completed else Failed,
                q.totalSegmentBytes, elapsedSeconds, error)
  }

  /** `MarkQueueItemCompleted`: the job leaves the queue, its history entry
      is written, and the entries the job created (if any) are kept. */
  function MarkQueueItemCompleted(db: Db, q: QS.QueueItem, elapsedSeconds: int, error: Option<string>,
                                  added: seq<DavItems.DavItem>, nextId: nat): Db
  {
    Db(QS.RemoveQueueItem(db.queue, q.id), db.history + [CreateHistoryItem(q, elapsedSeconds, error)],
       db.items + added, nextId)
  }

  /** The retry path: only the job's `PauseUntil` changes. */
  function PauseQueueItem(queue: seq<QS.QueueItem>, id: nat, until: int): (r: seq<QS.QueueItem>)
    ensures |r| == |queue|
    ensures forall i :: 0 <= i < |queue| ==>
              r[i] == if queue[i].id == id then queue[i].(pauseUntil := Some(until)) else queue[i]
  {
    seq(|queue|, i requires 0 <= i < |queue| =>
          if queue[i].id == id then queue[i].(pauseUntil := Some(until)) else queue[i])
  }

  /** `IsAlreadyDownloaded`: some folder named after the job sits in a
      folder named after the category, directly under the content folder. */
  predicate IsAlreadyDownloaded(items: seq<DavItems.DavItem>, q: QS.QueueItem) {
    exists i, j :: && 0 <= i < |items| && 0 <= j < |items|
                   && items[i].name == q.jobName && items[i].parentId == Some(items[j].id)
                   && items[j].name == q.category && items[j].parentId == Some(DavItems.ContentFolderId)
  }

  /** Which processor a file name gets. */
  datatype Choice = UseRar | UseFile | Skip

  /** `GetFileProcessor`: RAR volumes first, then anything but PAR2. */
  function GetFileProcessor(name: string): (c: Choice)
    ensures c == UseRar <==> RP.IsRarFile(name)
    ensures c == UseFile <==> !RP.IsRarFile(name) && FP.CanProcess(name)
  {
    if RP.IsRarFile(name) then UseRar else if FP.CanProcess(name) then UseFile else Skip
  }

  /** An NZB file with its resolved name. */
  datatype NzbFileRef = NzbFileRef(segmentIds: seq<string>, name: string)

  predicate HasName(files: seq<NzbFileRef>, name: string) {
    exists k :: 0 <= k < |files| && files[k].name == name
  }

  /** `DistinctBy(name)`: the first file of each name, in order. */
  function DistinctByName(files: seq<NzbFileRef>): (r: seq<NzbFileRef>)
    ensures forall i, j :: 0 <= i < j < |r| ==> r[i].name != r[j].name
    ensures forall i :: 0 <= i < |r| ==> r[i] in files
    ensures forall i :: 0 <= i < |files| ==> HasName(r, files[i].name)
    decreases |files|
  {
    if |files| == 0 then []
    else
      var prev := DistinctByName(files[..|files| - 1]);
      DistinctStep(files, prev);
      if HasName(prev, files[|files| - 1].name) then prev else prev + [files[|files| - 1]]
  }

  /** One step of `DistinctBy`: the last file is kept exactly when its name
      is new, and the selection keeps its three properties. */
  lemma DistinctStep(files: seq<NzbFileRef>, prev: seq<NzbFileRef>)
    requires |files| > 0
    requires var init := files[..|files| - 1];
             && (forall i, j :: 0 <= i < j < |prev| ==> prev[i].name != prev[j].name)
             && (forall i :: 0 <= i < |prev| ==> prev[i] in init)
             && (forall i :: 0 <= i < |init| ==> HasName(prev, init[i].name))
    ensures var last := files[|files| - 1];
            var r := if HasName(prev, last.name) then prev else prev + [last];
            && (forall i, j :: 0 <= i < j < |r| ==> r[i].name != r[j].name)
            && (forall i :: 0 <= i < |r| ==> r[i] in files)
            && (forall i :: 0 <= i < |files| ==> HasName(r, files[i].name))
  {
    var init := files[..|files| - 1];
    var last := files[|files| - 1];
    assert forall i :: 0 <= i < |init| ==> files[i] == init[i];
    assert forall i :: 0 <= i < |prev| ==> prev[i] in files by {
      forall i | 0 <= i < |prev|
        ensures prev[i] in files
      {
        var k :| 0 <= k < |init| && init[k] == prev[i];
        assert files[k] == prev[i];
      }
    }
    if !HasName(prev, last.name) {
      var r := prev + [last];
      assert forall i :: 0 <= i < |prev| ==> r[i] == prev[i];
      assert r[|prev|] == last;
      assert forall i :: 0 <= i < |files| ==> HasName(r, files[i].name) by {
        forall i | 0 <= i < |files|
          ensures HasName(r, files[i].name)
        {
          if i < |files| - 1 {
            assert HasName(prev, init[i].name);
            var k :| 0 <= k < |prev| && prev[k].name == init[i].name;
            assert r[k] == prev[k];
          } else {
            assert r[|prev|].name == files[i].name;
          }
        }
      }
      assert forall i :: 0 <= i < |r| ==> r[i] in files;
      assert forall i, j :: 0 <= i < j < |r| ==> r[i].name != r[j].name;
    } else {
      assert forall i :: 0 <= i < |files| ==> HasName(prev, files[i].name) by {
        forall i | 0 <= i < |files| - 1
          ensures HasName(prev, files[i].name)
        {
          assert HasName(prev, init[i].name);
        }
      }
    }
  }

  /** No file before position `k` has the name of the file at `k`. */
  predicate FirstOfName(files: seq<NzbFileRef>, k: int)
    requires 0 <= k < |files|
  {
    forall j :: 0 <= j < k ==> files[j].name != files[k].name
  }

  /** `idx` maps `r` onto first occurrences of names in `files`, in
      increasing position. */
  predicate KeepsFirsts(files: seq<NzbFileRef>, r: seq<NzbFileRef>, idx: seq<nat>) {
    && |idx| == |r|
    && (forall i :: 0 <= i < |idx| ==> idx[i] < |files| && files[idx[i]] == r[i] && FirstOfName(files, idx[i]))
    && (forall i, l :: 0 <= i < l < |idx| ==> idx[i] < idx[l])
  }

  /** A selection from all but the last file is one from all files. */
  lemma KeepsFirstsPrefix(files: seq<NzbFileRef>, r: seq<NzbFileRef>, idx: seq<nat>)
    requires |files| > 0 && KeepsFirsts(files[..|files| - 1], r, idx)
    ensures KeepsFirsts(files, r, idx)
    ensures forall i :: 0 <= i < |idx| ==> idx[i] < |files| - 1
  {
    var init := files[..|files| - 1];
    forall i | 0 <= i < |idx|
      ensures files[idx[i]] == r[i] && FirstOfName(files, idx[i])
    {
      var k := idx[i];
      assert FirstOfName(init, k);
      assert forall j :: 0 <= j <= k ==> files[j] == init[j];
    }
  }

  /** A last file whose name is new extends the selection. */
  lemma KeepsFirstsAppend(files: seq<NzbFileRef>, r: seq<NzbFileRef>, idx: seq<nat>)
    requires |files| > 0 && KeepsFirsts(files, r, idx) && FirstOfName(files, |files| - 1)
    requires forall i :: 0 <= i < |idx| ==> idx[i] < |files| - 1
    ensures KeepsFirsts(files, r + [files[|files| - 1]], idx + [|files| - 1])
  {
    var idx2 := idx + [|files| - 1];
    var r2 := r + [files[|files| - 1]];
    assert forall i :: 0 <= i < |idx| ==> idx2[i] == idx[i] && r2[i] == r[i];
  }

  /** `DistinctBy` keeps, in order, the first file of each name: each kept
      file sits at a position no earlier file shares its name with, and
      the kept positions increase. */
  lemma {:induction false} DistinctByNameKeepsFirsts(files: seq<NzbFileRef>)
    ensures exists idx :: KeepsFirsts(files, DistinctByName(files), idx)
    decreases |files|
  {
    if |files| == 0 {
      assert KeepsFirsts(files, DistinctByName(files), []);
    } else {
      var init := files[..|files| - 1];
      var last := files[|files| - 1];
      var prev := DistinctByName(init);
      DistinctByNameKeepsFirsts(init);
      var idx': seq<nat> :| KeepsFirsts(init, prev, idx');
      KeepsFirstsPrefix(files, prev, idx');
      if HasName(prev, last.name) {
        assert DistinctByName(files) == prev;
      } else {
        var n := |files| - 1;
        forall j | 0 <= j < n
          ensures files[j].name != last.name
        {
          assert files[j] == init[j];
          assert HasName(prev, init[j].name);
        }
        KeepsFirstsAppend(files, prev, idx');
        assert DistinctByName(files) == prev + [last];
        assert KeepsFirsts(files, DistinctByName(files), idx' + [n]);
      }
    }
  }

  /** The files that get a processor, in order. */
  function ToProcess(files: seq<NzbFileRef>): (r: seq<NzbFileRef>)
    ensures forall f :: f in r <==> f in DistinctByName(files) && GetFileProcessor(f.name) != Skip
  {
    Keep(DistinctByName(files))
  }

  /** The not-null filter after `GetFileProcessor`, in order. */
  function Keep(files: seq<NzbFileRef>): (r: seq<NzbFileRef>)
    ensures forall f :: f in r <==> f in files && GetFileProcessor(f.name) != Skip
    decreases |files|
  {
    if |files| == 0 then []
    else
      var rest := Keep(files[1..]);
      assert forall f :: f in files <==> f == files[0] || f in files[1..];
      if GetFileProcessor(files[0].name) != Skip then [files[0]] + rest else rest
  }

  /** The elements of `xs` whose flag in `take` is set, in order. */
  function Select<T>(xs: seq<T>, take: seq<bool>): (r: seq<T>)
    requires |take| == |xs|
    ensures |r| <= |xs|
    decreases |xs|
  {
    if |xs| == 0 then []
    else (if take[0] then [xs[0]] else []) + Select(xs[1..], take[1..])
  }

  /** Whether some processor takes each file. */
  function Taken(files: seq<NzbFileRef>): (r: seq<bool>)
    ensures |r| == |files|
    ensures forall i :: 0 <= i < |files| ==> r[i] == (GetFileProcessor(files[i].name) != Skip)
  {
    seq(|files|, i requires 0 <= i < |files| => GetFileProcessor(files[i].name) != Skip)
  }

  /** `Keep` selects the files some processor takes. */
  lemma {:induction false} KeepIsSelect(files: seq<NzbFileRef>)
    ensures Keep(files) == Select(files, Taken(files))
    decreases |files|
  {
    if |files| > 0 {
      KeepIsSelect(files[1..]);
      assert Taken(files)[1..] == Taken(files[1..]);
    }
  }

  /** Every element of `s` is at least `k`. */
  predicate AtLeast(s: seq<nat>, k: int) {
    forall i :: 0 <= i < |s| ==> k <= s[i]
  }

  /** Selecting from a selection of first occurrences, and from its
      positions alike, leaves one, of positions no earlier than the first. */
  lemma {:induction false} SelectKeepsFirsts(files: seq<NzbFileRef>, r: seq<NzbFileRef>, idx: seq<nat>, take: seq<bool>)
    requires KeepsFirsts(files, r, idx) && |take| == |r|
    ensures KeepsFirsts(files, Select(r, take), Select(idx, take))
    ensures |r| > 0 ==> AtLeast(Select(idx, take), idx[0])
    decreases |r|
  {
    if |r| > 0 {
      KeepsFirstsTail(files, r, idx);
      SelectKeepsFirsts(files, r[1..], idx[1..], take[1..]);
      var rest, restIdx := Select(r[1..], take[1..]), Select(idx[1..], take[1..]);
      assert forall i :: 0 <= i < |restIdx| ==> idx[0] < restIdx[i] by {
        if |r| > 1 {
          assert AtLeast(restIdx, idx[1]);
        }
      }
      if take[0] {
        KeepsFirstsCons(files, r[0], idx[0], rest, restIdx);
        assert Select(idx, take) == [idx[0]] + restIdx;
      }
    }
  }

  /** A selection without its first file is still a selection, of later
      positions. */
  lemma KeepsFirstsTail(files: seq<NzbFileRef>, r: seq<NzbFileRef>, idx: seq<nat>)
    requires KeepsFirsts(files, r, idx) && |r| > 0
    ensures KeepsFirsts(files, r[1..], idx[1..])
    ensures idx[0] < |files| && files[idx[0]] == r[0] && FirstOfName(files, idx[0])
    ensures |r| > 1 ==> idx[0] < idx[1]
  {
    var tail, tidx := r[1..], idx[1..];
    assert forall i :: 0 <= i < |tidx| ==> tidx[i] == idx[i + 1] && tail[i] == r[i + 1];
  }

  /** A first occurrence before every selected position extends the
      selection at the front. */
  lemma KeepsFirstsCons(files: seq<NzbFileRef>, f: NzbFileRef, k: nat, r: seq<NzbFileRef>, idx: seq<nat>)
    requires KeepsFirsts(files, r, idx)
    requires k < |files| && files[k] == f && FirstOfName(files, k)
    requires forall i :: 0 <= i < |idx| ==> k < idx[i]
    ensures KeepsFirsts(files, [f] + r, [k] + idx)
  {
    var r', idx' := [f] + r, [k] + idx;
    assert forall i :: 0 < i < |idx'| ==> idx'[i] == idx[i - 1] && r'[i] == r[i - 1];
  }

  /** The files handed to a processor are, in order, the first file of
      each name that some processor takes, and every such file is among
      them. */
  lemma ToProcessFirstsAccepted(files: seq<NzbFileRef>)
    ensures exists idx :: KeepsFirsts(files, ToProcess(files), idx)
    ensures forall f :: f in ToProcess(files) ==> GetFileProcessor(f.name) != Skip
    ensures forall k :: 0 <= k < |files| && FirstOfName(files, k) && GetFileProcessor(files[k].name) != Skip ==>
              files[k] in ToProcess(files)
  {
    var d := DistinctByName(files);
    DistinctByNameKeepsFirsts(files);
    var idx :| KeepsFirsts(files, d, idx);
    KeepIsSelect(d);
    SelectKeepsFirsts(files, d, idx, Taken(d));
    assert KeepsFirsts(files, ToProcess(files), Select(idx, Taken(d)));
    forall k | 0 <= k < |files| && FirstOfName(files, k) && GetFileProcessor(files[k].name) != Skip
      ensures files[k] in ToProcess(files)
    {
      FirstInDistinct(files, k);
    }
  }

  /** The first file of each name survives `DistinctBy`. */
  lemma FirstInDistinct(files: seq<NzbFileRef>, k: int)
    requires 0 <= k < |files| && FirstOfName(files, k)
    ensures files[k] in DistinctByName(files)
  {
    var d := DistinctByName(files);
    DistinctByNameKeepsFirsts(files);
    var idx :| KeepsFirsts(files, d, idx);
    assert HasName(d, files[k].name);
    var i :| 0 <= i < |d| && d[i].name == files[k].name;
    var m := idx[i];
    assert FirstOfName(files, m);
    assert m == k;
  }

  /** `GetOrCreateCategoryFolder`: the first folder under the content
      folder with the category's name, or a new one. */
  function CategoryFolder(items: seq<DavItems.DavItem>, category: string, nextId: nat): (r: (DavItems.DavItem, seq<DavItems.DavItem>, nat))
    ensures r.0.name == category && r.0.parentId == Some(DavItems.ContentFolderId)
    ensures r.1 == [] ==> r.0 in items && r.2 == nextId
    ensures r.1 != [] ==> r.1 == [r.0] && r.0.id == nextId && r.2 == nextId + 1 && r.0.itemType == DavItems.Directory
    ensures r.1 != [] <==> forall x :: x in items ==> !(x.parentId == Some(DavItems.ContentFolderId) && x.name == category)
    decreases |items|
  {
    if |items| == 0 then
      var folder := DavItems.DavItem(nextId, Some(DavItems.ContentFolderId), category, None, DavItems.Directory);
      (folder, [folder], nextId + 1)
    else if items[0].parentId == Some(DavItems.ContentFolderId) && items[0].name == category then
      (items[0], [], nextId)
    else
      var r := CategoryFolder(items[1..], category, nextId);
      assert forall x :: x in items <==> x == items[0] || x in items[1..];
      r
  }

  function DirectoryItem(d: RA.Directory): DavItems.DavItem {
    DavItems.DavItem(d.id, Some(d.parentId), d.name, None, DavItems.Directory)
  }

  function RarFileItem(f: RA.RarFile): DavItems.DavItem {
    DavItems.DavItem(f.id, Some(f.parentId), f.name, Some(f.fileSize), DavItems.RarFile)
  }

  /** `CreateMountFolder`: the job's folder inside its category folder. */
  function MountFolder(category: DavItems.DavItem, q: QS.QueueItem, id: nat): DavItems.DavItem {
    DavItems.DavItem(id, Some(category.id), q.jobName, None, DavItems.Directory)
  }

  /** The aggregators' entries under the mount folder: RAR members with
      their directories, then plain files; ids from `nextId` on. */
  function AggregatedItems(mountId: nat, nextId: nat, processed: seq<BP.ProcessorResult>): (r: (seq<DavItems.DavItem>, nat))
  {
    var (dirs, rarFiles) := RA.UpdateDatabase(RA.Dirs(map[], [], nextId), mountId, BP.RarParts(processed));
    var entries := FA.UpdateDatabase(processed, mountId, dirs.nextId);
    var rarItems := seq(|dirs.created|, i requires 0 <= i < |dirs.created| => DirectoryItem(dirs.created[i]))
                    + seq(|rarFiles|, i requires 0 <= i < |rarFiles| => RarFileItem(rarFiles[i]));
    var fileItems := seq(|entries|, i requires 0 <= i < |entries| => entries[i].item);
    (rarItems + fileItems, dirs.nextId + |entries|)
  }

  /** The ids of the directories among `items`. */
  function DirIds(items: seq<DavItems.DavItem>): (r: set<nat>)
    ensures forall y :: y in items && y.itemType == DavItems.Directory ==> y.id in r
    ensures forall id :: id in r ==> exists y :: y in items && y.itemType == DavItems.Directory && y.id == id
  {
    set y | y in items && y.itemType == DavItems.Directory :: y.id
  }

  /** Every item of `items` has a parent among `ids`. */
  predicate ParentsIn(items: seq<DavItems.DavItem>, ids: set<nat>) {
    forall x :: x in items ==> x.parentId.Some? && x.parentId.value in ids
  }

  /** The items of the created directories: their ids are exactly the
      created ids, and their parents are the mount folder or created. */
  lemma DirectoryItemsPlaced(dirs: RA.Dirs, mountId: nat)
    requires RA.Placed(dirs, mountId)
    ensures var items := seq(|dirs.created|, i requires 0 <= i < |dirs.created| => DirectoryItem(dirs.created[i]));
            RA.Ids(dirs.created) <= DirIds(items) && ParentsIn(items, {mountId} + RA.Ids(dirs.created))
  {
    var items := seq(|dirs.created|, i requires 0 <= i < |dirs.created| => DirectoryItem(dirs.created[i]));
    forall id | id in RA.Ids(dirs.created)
      ensures id in DirIds(items)
    {
      var d :| d in dirs.created && d.id == id;
      var k :| 0 <= k < |dirs.created| && dirs.created[k] == d;
      assert items[k] == DirectoryItem(d);
    }
    forall x | x in items
      ensures x.parentId.Some? && x.parentId.value in {mountId} + RA.Ids(dirs.created)
    {
      var k :| 0 <= k < |items| && items[k] == x;
      assert dirs.created[k] in dirs.created;
    }
  }

  lemma RarFileItemsPlaced(rarFiles: seq<RA.RarFile>, ids: set<nat>)
    requires forall i :: 0 <= i < |rarFiles| ==> rarFiles[i].parentId in ids
    ensures ParentsIn(seq(|rarFiles|, i requires 0 <= i < |rarFiles| => RarFileItem(rarFiles[i])), ids)
  {
  }

  lemma FileItemsPlaced(entries: seq<FA.Entry>, mountId: nat)
    requires forall i :: 0 <= i < |entries| ==> entries[i].item.parentId == Some(mountId)
    ensures ParentsIn(seq(|entries|, i requires 0 <= i < |entries| => entries[i].item), {mountId})
  {
  }

  /** Everything the aggregators add sits in the mount folder or in a
      directory they add. */
  lemma AggregatedItemsPlaced(mountId: nat, nextId: nat, processed: seq<BP.ProcessorResult>)
    ensures var items := AggregatedItems(mountId, nextId, processed).0;
            ParentsIn(items, {mountId} + DirIds(items))
  {
    var (dirs, rarFiles) := RA.UpdateDatabase(RA.Dirs(map[], [], nextId), mountId, BP.RarParts(processed));
    RA.UpdateDatabasePlaced(mountId, nextId, BP.RarParts(processed));
    var entries := FA.UpdateDatabase(processed, mountId, dirs.nextId);
    var dirItems := seq(|dirs.created|, i requires 0 <= i < |dirs.created| => DirectoryItem(dirs.created[i]));
    var fileRars := seq(|rarFiles|, i requires 0 <= i < |rarFiles| => RarFileItem(rarFiles[i]));
    var fileItems := seq(|entries|, i requires 0 <= i < |entries| => entries[i].item);
    var ids := {mountId} + RA.Ids(dirs.created);
    DirectoryItemsPlaced(dirs, mountId);
    RarFileItemsPlaced(rarFiles, ids);
    FileItemsPlaced(entries, mountId);
    var items := dirItems + fileRars + fileItems;
    assert AggregatedItems(mountId, nextId, processed).0 == items;
    assert DirIds(dirItems) <= DirIds(items);
    assert forall x :: x in items ==> x in dirItems || x in fileRars || x in fileItems;
  }

  /** The category folder named `category` directly under the content
      folder already exists. */
  predicate HasCategoryFolder(items: seq<DavItems.DavItem>, category: string) {
    exists x :: x in items && x.parentId == Some(DavItems.ContentFolderId) && x.name == category
  }

  /** The layout of a job's added entries: a new category folder (when
      none exists) comes first, takes the next id and sits under the
      content folder; the mount folder follows, named after the job,
      inside a folder named after the category under the content folder,
      existing or just added; every later entry sits in the mount folder
      or in another added directory. */
  predicate MountLayout(db: Db, q: QS.QueueItem, added: seq<DavItems.DavItem>) {
    var k := if HasCategoryFolder(db.items, q.category) then 0 else 1;
    && k < |added|
    && (k == 1 ==> && added[0].name == q.category && added[0].parentId == Some(DavItems.ContentFolderId)
                   && added[0].itemType == DavItems.Directory && added[0].id == db.nextId)
    && added[k].name == q.jobName && added[k].itemType == DavItems.Directory
    && (exists c :: c in db.items + added[..k] && added[k].parentId == Some(c.id)
                    && c.parentId == Some(DavItems.ContentFolderId) && c.name == q.category)
    && ParentsIn(added[k + 1..], {added[k].id} + DirIds(added))
  }

  /** The category folder, the mount folder inside it and entries placed
      below the mount folder have the mount layout. */
  lemma LayoutOf(db: Db, q: QS.QueueItem, below: seq<DavItems.DavItem>)
    requires ParentsIn(below, {CategoryFolder(db.items, q.category, db.nextId).2} + DirIds(below))
    ensures var category := CategoryFolder(db.items, q.category, db.nextId);
            MountLayout(db, q, category.1 + [MountFolder(category.0, q, category.2)] + below)
  {
    var category := CategoryFolder(db.items, q.category, db.nextId);
    var mount := MountFolder(category.0, q, category.2);
    var r := category.1 + [mount] + below;
    var k := |category.1|;
    assert r[k] == mount && r[k + 1..] == below;
    if category.1 == [] {
      assert category.0 in db.items;
    } else {
      assert r[..k] == [category.0];
    }
    assert category.0 in db.items + r[..k];
    assert DirIds(below) <= DirIds(r);
  }

  /** The entries created for a job's processed files: the category folder
      if new, the mount folder named after the job, and what the
      aggregators add below it, laid out as `MountLayout` states. */
  function DatabaseOperations(db: Db, q: QS.QueueItem, processed: seq<BP.ProcessorResult>): (r: (seq<DavItems.DavItem>, nat))
    ensures |r.0| >= 1
    ensures MountLayout(db, q, r.0)
  {
    var category := CategoryFolder(db.items, q.category, db.nextId);
    var mount := MountFolder(category.0, q, category.2);
    var below := AggregatedItems(mount.id, category.2 + 1, processed);
    AggregatedItemsPlaced(mount.id, category.2 + 1, processed);
    LayoutOf(db, q, below.0);
    (category.1 + [mount] + below.0, below.1)
  }

  /** The validator sees exactly the entries this job added. */
  function AsAdded(items: seq<DavItems.DavItem>): (r: seq<EV.Tracked>)
    ensures |r| == |items| && forall i :: 0 <= i < |items| ==> r[i] == EV.Tracked(EV.Added, items[i])
  {
    seq(|items|, i requires 0 <= i < |items| => EV.Tracked(EV.Added, items[i]))
  }

  /** The failure paths: a non-retryable error finalizes the job as
      failed, anything else pauses it for a minute. */
  function Fail(db: Db, q: QS.QueueItem, now: int, elapsedSeconds: int, e: Error): Db {
    if IsNonRetryable(e) then MarkQueueItemCompleted(db, q, elapsedSeconds, Some(Message(e)), [], db.nextId)
    else db.(queue := PauseQueueItem(db.queue, q.id, now + RetryDelay))
  }

  /** `ProcessAsync`. */
  function ProcessAsync(db: Db, q: QS.QueueItem, now: int, elapsedSeconds: int, ensureVideo: bool,
                        processed: Result<seq<BP.ProcessorResult>>): Db
  {
    if IsAlreadyDownloaded(db.items, q) then MarkQueueItemCompleted(db, q, elapsedSeconds, None, [], db.nextId)
    else match processed
      case Err(e) => Fail(db, q, now, elapsedSeconds, e)
      case Ok(results) =>
        var (added, nextId) := DatabaseOperations(db, q, results);
        if ensureVideo && !EV.HasImportableVideo(AsAdded(added)) then Fail(db, q, now, elapsedSeconds, NoVideoFilesFound)
        else MarkQueueItemCompleted(db, q, elapsedSeconds, None, added, nextId)
  }

  /** The job's history entry was appended and the job left the queue. */
  ghost predicate Finalized(db: Db, db': Db, q: QS.QueueItem) {
    && |db'.history| == |db.history| + 1 && db'.history[..|db.history|] == db.history
    && db'.history[|db.history|].id == q.id
    && (forall x :: x in db'.queue <==> x in db.queue && x.id != q.id)
  }

  /** Every job ends in one of three ways. It is completed, with entries
      added only when it was not a duplicate; or it failed for good, with
      the error's message and nothing added; or it stays queued, paused for
      one minute, with nothing else changed. */
  lemma ProcessOutcome(db: Db, q: QS.QueueItem, now: int, elapsedSeconds: int, ensureVideo: bool,
                       processed: Result<seq<BP.ProcessorResult>>)
    ensures var db' := ProcessAsync(db, q, now, elapsedSeconds, ensureVideo, processed);
            || (&& Finalized(db, db', q) && db'.history[|db.history|].status == Completed
                && db'.history[|db.history|].failMessage.None?
                && db'.items[..|db.items|] == db.items
                && (IsAlreadyDownloaded(db.items, q) ==> db'.items == db.items)
                && (!IsAlreadyDownloaded(db.items, q) ==> processed.Ok? && |db'.items| > |db.items|))
            || (&& Finalized(db, db', q) && db'.history[|db.history|].status == Failed && db'.items == db.items
                && (processed.Err? ==> && IsNonRetryable(processed.error)
                                       && db'.history[|db.history|].failMessage == Some(Message(processed.error)))
                && (processed.Ok? ==> && ensureVideo
                                      && db'.history[|db.history|].failMessage == Some(Message(NoVideoFilesFound))))
            || (&& !IsAlreadyDownloaded(db.items, q) && processed.Err? && !IsNonRetryable(processed.error)
                && db' == db.(queue := PauseQueueItem(db.queue, q.id, now + RetryDelay)))
  {
  }

  /** A duplicate job is completed without looking at the processors. */
  lemma DuplicateCompletes(db: Db, q: QS.QueueItem, now: int, elapsedSeconds: int, ensureVideo: bool,
                           processed: Result<seq<BP.ProcessorResult>>)
    requires IsAlreadyDownloaded(db.items, q)
    ensures var db' := ProcessAsync(db, q, now, elapsedSeconds, ensureVideo, processed);
            && Finalized(db, db', q) && db'.items == db.items
            && db'.history[|db.history|].status == Completed
  {
    var db' := ProcessAsync(db, q, now, elapsedSeconds, ensureVideo, processed);
    assert db'.history[|db.history|] == CreateHistoryItem(q, elapsedSeconds, None);
  }

  /** A job without an importable video, when the check is on, fails for
      good and leaves no entries behind. */
  lemma NoVideoFails(db: Db, q: QS.QueueItem, now: int, elapsedSeconds: int, results: seq<BP.ProcessorResult>)
    requires !IsAlreadyDownloaded(db.items, q)
    requires !EV.HasImportableVideo(AsAdded(DatabaseOperations(db, q, results).0))
    ensures var db' := ProcessAsync(db, q, now, elapsedSeconds, true, Ok(results));
            && Finalized(db, db', q) && db'.items == db.items
            && db'.history[|db.history|].status == Failed
            && db'.history[|db.history|].failMessage == Some(Message(NoVideoFilesFound))
  {
    var db' := ProcessAsync(db, q, now, elapsedSeconds, true, Ok(results));
    assert db'.history[|db.history|] == CreateHistoryItem(q, elapsedSeconds, Some(Message(NoVideoFilesFound)));
  }

  /** A retryable failure keeps the job and its place in the queue, paused
      until one minute from now. */
  lemma RetryPauses(db: Db, q: QS.QueueItem, now: int, elapsedSeconds: int, ensureVideo: bool, e: Error)
    requires !IsAlreadyDownloaded(db.items, q) && !IsNonRetryable(e)
    ensures var db' := ProcessAsync(db, q, now, elapsedSeconds, ensureVideo, Err(e));
            && db'.history == db.history && db'.items == db.items && |db'.queue| == |db.queue|
            && (forall i :: 0 <= i < |db.queue| && db.queue[i].id == q.id ==> db'.queue[i].pauseUntil == Some(now + RetryDelay))
            && (forall i :: 0 <= i < |db.queue| && db.queue[i].id != q.id ==> db'.queue[i] == db.queue[i])
            && !QS.Eligible(q.(pauseUntil := Some(now + RetryDelay)), now)
  {
  }
}
