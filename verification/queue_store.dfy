/** The queue and item queries of `DavDatabaseClient`
    (backend/Database/DavDatabaseClient.cs), over the tables as sequences.

    Times are milliseconds on an abstract clock; `now` is a parameter. The
    database's ordering of equal keys is unspecified; the model keeps table
    order for them. */
module QueueStore {
  import opened Wrappers
  import Sorting
  import DavItems

  /** A queued job (`QueueItem`), without the NZB document itself. */
  datatype QueueItem = QueueItem(
    id: nat,
    createdAt: int,
    fileName: string,
    jobName: string,
    category: string,
    priority: int,
    postProcessing: int,
    totalSegmentBytes: int,
    pauseUntil: Option<int>)

  /** Higher priority first, then older first. */
  function QueueKey(q: QueueItem): Sorting.Key {
    Sorting.Key(-q.priority, q.createdAt)
  }

  /** `q` comes no later than `p` in queue order. */
  predicate Before(q: QueueItem, p: QueueItem) {
    q.priority > p.priority || (q.priority == p.priority && q.createdAt <= p.createdAt)
  }

  lemma KeyOrder(q: QueueItem, p: QueueItem)
    ensures Sorting.KeyLe(QueueKey(q), QueueKey(p)) <==> Before(q, p)
  {
  }

  /** Not paused, or the pause is over. */
  predicate Eligible(q: QueueItem, now: int) {
    q.pauseUntil.None? || now >= q.pauseUntil.value
  }

  function Ordered(queue: seq<QueueItem>): (r: seq<QueueItem>)
    ensures |r| == |queue| && multiset(r) == multiset(queue)
    ensures forall i, j :: 0 <= i < j < |r| ==> Before(r[i], r[j])
  {
    Sorting.SortByCorrect(queue, QueueKey);
    var r := Sorting.SortBy(queue, QueueKey);
    assert forall i, j :: 0 <= i < j < |r| ==> Sorting.KeyLe(QueueKey(r[i]), QueueKey(r[j]));
    r
  }

  /** The first element of `s` that is eligible at `now`. */
  function FirstEligible(s: seq<QueueItem>, now: int): (r: Option<QueueItem>)
    ensures r.Some? ==> r.value in s && Eligible(r.value, now)
    ensures r.None? <==> forall i :: 0 <= i < |s| ==> !Eligible(s[i], now)
    ensures r.Some? ==> exists k :: 0 <= k < |s| && s[k] == r.value && forall j :: 0 <= j < k ==> !Eligible(s[j], now)
    decreases |s|
  {
    if |s| == 0 then None
    else if Eligible(s[0], now) then Some(s[0])
    else
      var r := FirstEligible(s[1..], now);
      assert forall i :: 1 <= i < |s| ==> s[i] == s[1..][i - 1];
      assert r.Some? ==> exists k :: 0 <= k < |s| && s[k] == r.value && forall j :: 0 <= j < k ==> !Eligible(s[j], now) by {
        if r.Some? {
          var k :| 0 <= k < |s[1..]| && s[1..][k] == r.value && forall j :: 0 <= j < k ==> !Eligible(s[1..][j], now);
          assert s[k + 1] == r.value;
          assert forall j :: 0 <= j < k + 1 ==> !Eligible(s[j], now) by {
            forall j | 0 <= j < k + 1
              ensures !Eligible(s[j], now)
            {
              if j > 0 {
                assert s[j] == s[1..][j - 1];
              }
            }
          }
        }
      }
      r
  }

  /** `GetTopQueueItem`: the first eligible item in queue order. */
  function GetTopQueueItem(queue: seq<QueueItem>, now: int): (r: Option<QueueItem>)
  {
    FirstEligible(Ordered(queue), now)
  }

  /** The top item is an eligible queued item that no eligible item
      precedes strictly (higher priority, or same priority and older); there
      is none exactly when no item is eligible. */
  lemma TopQueueItemCorrect(queue: seq<QueueItem>, now: int)
    ensures var r := GetTopQueueItem(queue, now);
            && (r.None? <==> forall q :: q in queue ==> !Eligible(q, now))
            && (r.Some? ==> && r.value in queue && Eligible(r.value, now)
                            && forall q :: q in queue && Eligible(q, now) ==> Before(r.value, q))
  {
    var s := Ordered(queue);
    var r := GetTopQueueItem(queue, now);
    OrderedMembers(queue);
    if r.Some? {
      FirstEligibleLeast(s, now);
      forall q | q in queue && Eligible(q, now)
        ensures Before(r.value, q)
      {
        var m :| 0 <= m < |s| && s[m] == q;
      }
    } else {
      forall q | q in queue
        ensures !Eligible(q, now)
      {
        var m :| 0 <= m < |s| && s[m] == q;
      }
    }
  }

  /** In an ordered sequence the first eligible element comes no later
      than any eligible element. */
  lemma FirstEligibleLeast(s: seq<QueueItem>, now: int)
    requires forall i, j :: 0 <= i < j < |s| ==> Before(s[i], s[j])
    requires FirstEligible(s, now).Some?
    ensures forall i :: 0 <= i < |s| && Eligible(s[i], now) ==> Before(FirstEligible(s, now).value, s[i])
  {
    var x := FirstEligible(s, now).value;
    var k :| 0 <= k < |s| && s[k] == x && forall j :: 0 <= j < k ==> !Eligible(s[j], now);
    forall i | 0 <= i < |s| && Eligible(s[i], now)
      ensures Before(x, s[i])
    {
      if i > k {
        assert Before(s[k], s[i]);
      }
    }
  }

  /** Ordering keeps exactly the queue's items. */
  lemma OrderedMembers(queue: seq<QueueItem>)
    ensures forall q :: q in queue <==> q in Ordered(queue)
  {
    var s := Ordered(queue);
    forall q
      ensures q in queue <==> q in s
    {
      assert q in queue <==> q in multiset(queue);
      assert q in s <==> q in multiset(s);
    }
  }

  /** `Where(q => q.Category == category || category == null)`. */
  function InCategory(queue: seq<QueueItem>, category: Option<string>): (r: seq<QueueItem>)
    ensures |r| <= |queue|
    ensures forall q :: q in r <==> q in queue && (category.None? || q.category == category.value)
    decreases |queue|
  {
    if |queue| == 0 then []
    else
      var rest := InCategory(queue[1..], category);
      assert forall q :: q in queue <==> q == queue[0] || q in queue[1..];
      if category.None? || queue[0].category == category.value then [queue[0]] + rest else rest
  }

  /** `Skip(start).Take(limit)` as SQLite runs it (`LIMIT limit OFFSET
      start`): a negative offset counts as zero and a negative limit means
      no limit at all. */
  function Page(s: seq<QueueItem>, start: int, limit: int): (r: seq<QueueItem>)
    ensures var from := if start <= 0 then 0 else if start >= |s| then |s| else start;
            var count := if limit < 0 || limit >= |s| - from then |s| - from else limit;
            r == s[from..from + count]
  {
    var from := if start <= 0 then 0 else if start >= |s| then |s| else start;
    var rest := s[from..];
    if limit == 0 then [] else if limit < 0 || limit >= |rest| then rest else rest[..limit]
  }

  /** `GetQueueItems`: the category's items in queue order, one page. */
  function GetQueueItems(queue: seq<QueueItem>, category: Option<string>, start: int, limit: int): (r: seq<QueueItem>)
  {
    Page(Ordered(InCategory(queue, category)), start, limit)
  }

  /** A page holds only queued items of the category, in queue order, and
      the pages of consecutive starts tile the ordered list. */
  lemma QueueItemsCorrect(queue: seq<QueueItem>, category: Option<string>, start: int, limit: int)
    ensures var r := GetQueueItems(queue, category, start, limit);
            && (forall q :: q in r ==> q in queue && (category.None? || q.category == category.value))
            && (forall i, j :: 0 <= i < j < |r| ==> Before(r[i], r[j]))
            && (limit >= 0 ==> |r| <= limit)
    ensures limit < 0 ==> GetQueueItems(queue, category, start, limit) == GetQueueItems(queue, category, start, |queue|)
    ensures start >= 0 && limit >= 0 ==>
              GetQueueItems(queue, category, start, limit) + GetQueueItems(queue, category, start + limit, limit)
              == GetQueueItems(queue, category, start, 2 * limit)
  {
    var s := Ordered(InCategory(queue, category));
    PageOf(s, start, limit);
    forall q | q in s
      ensures q in queue && (category.None? || q.category == category.value)
    {
      assert q in multiset(s);
      assert q in InCategory(queue, category) by {
        assert q in multiset(InCategory(queue, category));
      }
    }
    if start >= 0 && limit >= 0 {
      PagesTile(s, start, limit);
    }
  }

  /** A page is a run of consecutive elements: its members come from `s`
      and keep their order. */
  lemma PageOf(s: seq<QueueItem>, start: int, limit: int)
    requires forall i, j :: 0 <= i < j < |s| ==> Before(s[i], s[j])
    ensures var r := Page(s, start, limit);
            && (forall q :: q in r ==> q in s)
            && (forall i, j :: 0 <= i < j < |r| ==> Before(r[i], r[j]))
            && (limit >= 0 ==> |r| <= limit)
            && (limit < 0 ==> |r| == |s| - (if start <= 0 then 0 else if start >= |s| then |s| else start))
  {
    var r := Page(s, start, limit);
    var from := if start <= 0 then 0 else if start >= |s| then |s| else start;
    forall i, j | 0 <= i < j < |r|
      ensures Before(r[i], r[j])
    {
      assert r[i] == s[from + i] && r[j] == s[from + j];
    }
    forall q | q in r
      ensures q in s
    {
      var i :| 0 <= i < |r| && r[i] == q;
      assert s[from + i] == q;
    }
  }

  /** Two consecutive pages of `limit` make the page of `2 * limit`. */
  lemma PagesTile(s: seq<QueueItem>, start: int, limit: int)
    requires start >= 0 && limit >= 0
    ensures Page(s, start, limit) + Page(s, start + limit, limit) == Page(s, start, 2 * limit)
  {
    var a := if start >= |s| then |s| else start;
    var b := if start + limit >= |s| then |s| else start + limit;
    var c := if start + 2 * limit >= |s| then |s| else start + 2 * limit;
    assert Page(s, start, limit) == s[a..b];
    assert Page(s, start + limit, limit) == s[b..c];
    assert Page(s, start, 2 * limit) == s[a..c];
  }

  /** `RemoveQueueItemAsync`: deletes the item with that id; a missing id
      is not an error. */
  function RemoveQueueItem(queue: seq<QueueItem>, id: nat): (r: seq<QueueItem>)
    ensures forall q :: q in r <==> q in queue && q.id != id
    ensures |r| <= |queue|
    decreases |queue|
  {
    if |queue| == 0 then []
    else
      var rest := RemoveQueueItem(queue[1..], id);
      assert forall q :: q in queue <==> q == queue[0] || q in queue[1..];
      if queue[0].id == id then rest else [queue[0]] + rest
  }

  /** Removing twice is removing once, and removing a missing id changes
      nothing. */
  lemma {:induction false} RemoveIdempotent(queue: seq<QueueItem>, id: nat)
    ensures RemoveQueueItem(RemoveQueueItem(queue, id), id) == RemoveQueueItem(queue, id)
    ensures (forall q :: q in queue ==> q.id != id) ==> RemoveQueueItem(queue, id) == queue
    decreases |queue|
  {
    if |queue| > 0 {
      RemoveIdempotent(queue[1..], id);
      assert (forall q :: q in queue ==> q.id != id) ==> (forall q :: q in queue[1..] ==> q.id != id);
      if queue[0].id != id {
        assert RemoveQueueItem(queue, id)[1..] == RemoveQueueItem(queue[1..], id);
      }
    }
  }

  /** The sum of the sizes of the items that have one (`SUM` ignores null). */
  function TotalSize(items: seq<DavItems.DavItem>): int
    decreases |items|
  {
    if |items| == 0 then 0
    else TotalSize(items[..|items| - 1]) + items[|items| - 1].fileSize.GetOr(0)
  }

  lemma {:induction false} TotalSizeAppend(a: seq<DavItems.DavItem>, b: seq<DavItems.DavItem>)
    ensures TotalSize(a + b) == TotalSize(a) + TotalSize(b)
    decreases |b|
  {
    if |b| == 0 {
      assert a + b == a;
    } else {
      assert (a + b)[..|a + b| - 1] == a + b[..|b| - 1];
      TotalSizeAppend(a, b[..|b| - 1]);
    }
  }

  /** `GetRecursiveSize(Root)`: every item lies below the root, so its size
      is the sum over the whole table. */
  function RootRecursiveSize(items: seq<DavItems.DavItem>): (r: int)
    ensures (forall i :: 0 <= i < |items| ==> items[i].fileSize.None? || items[i].fileSize.value >= 0) ==> r >= 0
  {
    NonNegativeSizes(items);
    TotalSize(items)
  }

  lemma {:induction false} NonNegativeSizes(items: seq<DavItems.DavItem>)
    ensures (forall i :: 0 <= i < |items| ==> items[i].fileSize.None? || items[i].fileSize.value >= 0) ==> TotalSize(items) >= 0
    decreases |items|
  {
    if |items| > 0 {
      NonNegativeSizes(items[..|items| - 1]);
    }
  }
}
