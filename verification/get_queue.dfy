/** `GetQueueController` (backend/Api/SabControllers/GetQueue/): the
    SABnzbd `queue` call, which lists the job being downloaded followed by
    a page of the waiting jobs.

    The in-progress job and its percentage come from the queue manager and
    are an input; sizes are kept in bytes (the megabyte strings are left
    out). */
module GetQueue {
  import opened Wrappers
  import QS = QueueStore
  import AF = AddFileRequest
  import Arith

  datatype InProgress = InProgress(item: QS.QueueItem, percentage: int)

  datatype Slot = Slot(
    index: nat,
    nzoId: nat,
    priority: string,
    fileName: string,
    category: string,
    percentage: int,
    status: string,
    sizeBytes: int,
    sizeLeftBytes: int)

  /** C#'s `/` on integers: truncates toward zero. */
  function TruncDiv(a: int, b: int): (q: int)
    requires b > 0
    ensures a >= 0 ==> q == a / b
    ensures a < 0 ==> q == -((-a) / b)
  {
    if a >= 0 then a / b else -((-a) / b)
  }

  /** `PriorityOption.ToString()`: the member name, or the number for a
      value outside the enum. */
  function PriorityName(priority: int): string {
    if priority == -100 then "Default"
    else if priority == -3 then "Duplicate"
    else if priority == -2 then "Paused"
    else if priority == -1 then "Low"
    else if priority == 0 then "Normal"
    else if priority == 1 then "High"
    else if priority == 2 then "Force"
    else AF.ShowInt(priority)
  }

  /** The bytes still to download when `percentage` percent are done. */
  function BytesLeft(percentage: int, total: int): (r: int)
    ensures 0 <= percentage <= 100 && total >= 0 ==> 0 <= r <= total
    ensures percentage == 0 ==> r == total
    ensures percentage == 100 ==> r == 0
  {
    assert percentage == 0 ==> (100 - percentage) * total == total * 100;
    TruncDiv((100 - percentage) * total, 100)
  }

  /** More progress never leaves more bytes to go. */
  lemma BytesLeftMonotone(p1: int, p2: int, total: int)
    requires 0 <= p1 <= p2 <= 100 && total >= 0
    ensures BytesLeft(p2, total) <= BytesLeft(p1, total)
  {
    assert (100 - p2) * total <= (100 - p1) * total by {
      Arith.MulMono(100 - p2, 100 - p1, total);
      assert (100 - p2) * total >= 0;
    }
    Arith.DivMono((100 - p2) * total, (100 - p1) * total, 100);
  }

  /** The fetched jobs other than the one in progress, in order. */
  function Without(items: seq<QS.QueueItem>, id: Option<nat>): (r: seq<QS.QueueItem>)
    ensures |r| <= |items|
    ensures forall q :: q in r <==> q in items && Some(q.id) != id
  {
    if |items| == 0 then []
    else (if Some(items[0].id) == id then [] else [items[0]]) + Without(items[1..], id)
  }

  function SlotOf(q: QS.QueueItem, index: nat, percentage: int, downloading: bool): Slot {
    Slot(index, q.id, PriorityName(q.priority), q.fileName, q.category, percentage,
         if downloading then "Downloading" else "Queued",
         q.totalSegmentBytes, BytesLeft(percentage, q.totalSegmentBytes))
  }

  /** The in-progress job first, then the page without it. */
  function Jobs(page: seq<QS.QueueItem>, inProgress: Option<InProgress>): seq<QS.QueueItem> {
    var id := if inProgress.Some? then Some(inProgress.value.item.id) else None;
    (if inProgress.Some? then [inProgress.value.item] else []) + Without(page, id)
  }

  /** `GetQueueAsync`: one slot per job, numbered from 0; only the first
      slot of a download in progress is "Downloading" with its
      percentage, every other slot is "Queued" at 0%. */
  function GetQueueSlots(page: seq<QS.QueueItem>, inProgress: Option<InProgress>): (r: seq<Slot>)
    ensures |r| == |Jobs(page, inProgress)|
    ensures forall i :: 0 <= i < |r| ==> r[i].index == i && r[i].nzoId == Jobs(page, inProgress)[i].id
    ensures forall i :: 0 <= i < |r| ==>
              (r[i].status == "Downloading" <==> i == 0 && inProgress.Some?)
    ensures forall i :: 0 <= i < |r| && r[i].status == "Queued" ==>
              r[i].percentage == 0 && r[i].sizeLeftBytes == r[i].sizeBytes
  {
    var jobs := Jobs(page, inProgress);
    seq(|jobs|, i requires 0 <= i < |jobs| =>
      var downloading := i == 0 && inProgress.Some?;
      SlotOf(jobs[i], i, if downloading then inProgress.value.percentage else 0, downloading))
  }

  /** The job in progress appears once, in the first slot, even when the
      fetched page also holds it; every other fetched job gets a slot. */
  lemma InProgressListedOnce(page: seq<QS.QueueItem>, p: InProgress)
    ensures var r := GetQueueSlots(page, Some(p));
            && |r| >= 1 && r[0].nzoId == p.item.id && r[0].percentage == p.percentage
            && (forall i :: 1 <= i < |r| ==> r[i].nzoId != p.item.id)
            && (forall q :: q in page && q.id != p.item.id ==> exists i :: 1 <= i < |r| && r[i].nzoId == q.id)
  {
    var jobs := Jobs(page, Some(p));
    var rest := Without(page, Some(p.item.id));
    assert jobs == [p.item] + rest;
    forall i | 1 <= i < |jobs|
      ensures jobs[i].id != p.item.id
    {
      assert jobs[i] == rest[i - 1];
      assert rest[i - 1] in rest;
    }
    forall q | q in page && q.id != p.item.id
      ensures exists i :: 1 <= i < |jobs| && jobs[i].id == q.id
    {
      assert q in rest;
      var k :| 0 <= k < |rest| && rest[k] == q;
      assert jobs[k + 1] == q;
    }
  }

  /** With nothing in progress, the slots are the fetched page in order. */
  lemma IdleListsPage(page: seq<QS.QueueItem>)
    ensures var r := GetQueueSlots(page, None);
            |r| == |page| && forall i :: 0 <= i < |r| ==> r[i].nzoId == page[i].id && r[i].status == "Queued"
  {
    WithoutNone(page);
  }

  lemma {:induction false} WithoutNone(items: seq<QS.QueueItem>)
    ensures Without(items, None) == items
  {
    if |items| > 0 {
      WithoutNone(items[1..]);
      assert items == [items[0]] + items[1..];
    }
  }
}
