/** `ConnectionPool<T>` (backend/Clients/Connections/ConnectionPool.cs): a
    lazy pool of at most `maxConnections` live connections, with a stack
    of idle connections that expire after an idle timeout.

    The model is the pool's bookkeeping as a sequential state machine:
    connections are numbers, the clock (`Environment.TickCount64`) is a
    parameter, the semaphore is its permit count, and the connections the
    pool disposes are appended to `destroyed`. A wait on the semaphore with
    no permit left is reported as `Blocked`. */
module ConnectionPool {
  import opened Wrappers

  /** The default idle timeout, one minute, in milliseconds. */
  const DefaultIdleTimeout: int := 60_000

  /** An idle connection and the time it was returned. */
  datatype Pooled = Pooled(conn: nat, lastTouched: int)

  datatype Pool = Pool(
    max: int,
    idleTimeout: int,
    permits: int,            // the semaphore's free count
    live: int,               // `_live`
    available: seq<Pooled>,  // the idle stack, top first
    disposed: bool,
    outstanding: nat,        // connections handed out and not yet returned
    destroyed: seq<nat>)     // connections the pool disposed, in order

  /** `IsExpired`: idle for at least the timeout. */
  predicate IsExpired(item: Pooled, idleTimeout: int, now: int) {
    now - item.lastTouched >= idleTimeout
  }

  /** Every connection is handed out or idle, and there are at most `max`
      of them; each handed-out connection holds one permit. After disposal
      nothing is idle any more. */
  ghost predicate Valid(p: Pool) {
    && p.max > 0
    && (!p.disposed ==> && p.live == p.outstanding + |p.available| <= p.max
                        && p.permits == p.max - p.outstanding)
    && (p.disposed ==> p.available == [] && p.live >= p.outstanding)
  }

  /** The constructor: a positive size is required; the timeout defaults
      to one minute. */
  function New(maxConnections: int, idleTimeout: Option<int>): (r: Result<Pool>)
    ensures r.Err? <==> maxConnections <= 0
    ensures r.Err? ==> r.error == ArgumentOutOfRange
    ensures r.Ok? ==> && Valid(r.value) && r.value.permits == maxConnections
                      && r.value.live == 0 && r.value.available == []
                      && r.value.idleTimeout == idleTimeout.GetOr(DefaultIdleTimeout)
  {
    if maxConnections <= 0 then Err(ArgumentOutOfRange)
    else Ok(Pool(maxConnections, idleTimeout.GetOr(DefaultIdleTimeout), maxConnections, 0, [], false, 0, []))
  }

  function Conns(items: seq<Pooled>): (r: seq<nat>)
    ensures |r| == |items|
    ensures forall i :: 0 <= i < |items| ==> r[i] == items[i].conn
  {
    seq(|items|, i requires 0 <= i < |items| => items[i].conn)
  }

  /** The acquire loop's pops: expired connections off the top of the idle
      stack are disposed until a fresh one is found or the stack is empty.
      Returns the remaining stack, the connection found and the expired
      ones disposed. */
  function PopIdle(available: seq<Pooled>, idleTimeout: int, now: int): (r: (seq<Pooled>, Option<nat>, seq<nat>))
    ensures r.1.None? ==> && r.0 == [] && r.2 == Conns(available)
                          && forall j :: 0 <= j < |available| ==> IsExpired(available[j], idleTimeout, now)
    ensures r.1.Some? ==> var k := |r.2|;
                          && k < |available| && r.2 == Conns(available[..k])
                          && (forall j :: 0 <= j < k ==> IsExpired(available[j], idleTimeout, now))
                          && !IsExpired(available[k], idleTimeout, now)
                          && r.1.value == available[k].conn && r.0 == available[k + 1..]
    decreases |available|
  {
    if |available| == 0 then ([], None, [])
    else if !IsExpired(available[0], idleTimeout, now) then (available[1..], Some(available[0].conn), [])
    else
      var (rest, found, expired) := PopIdle(available[1..], idleTimeout, now);
      ConnsCons(available, |expired|);
      ConnsCons(available, |available| - 1);
      (rest, found, [available[0].conn] + expired)
  }

  lemma ConnsCons(items: seq<Pooled>, k: int)
    requires 0 <= k < |items|
    ensures Conns(items[..k + 1]) == [items[0].conn] + Conns(items[1..][..k])
    ensures k == |items| - 1 ==> items[..k + 1] == items && items[1..][..k] == items[1..]
  {
    var l, r := Conns(items[..k + 1]), [items[0].conn] + Conns(items[1..][..k]);
    assert |l| == |r|;
    forall i | 0 <= i < |l|
      ensures l[i] == r[i]
    {
      if i > 0 {
        assert items[..k + 1][i] == items[1..][..k][i - 1];
      }
    }
  }

  /** What a borrower gets. */
  datatype Acquisition = Blocked | Acquired(conn: nat, reused: bool) | Failed(error: Error)

  /** `GetConnectionLockAsync`: takes a permit, reuses the most recently
      returned idle connection that has not expired (disposing the expired
      ones on top of it), and otherwise asks the factory, whose outcome is
      `made`. A factory failure gives the permit back. */
  function Acquire(p: Pool, now: int, made: Option<nat>): (r: (Pool, Acquisition))
    requires Valid(p)
    ensures Valid(r.0)
    ensures r.1.Blocked? <==> !p.disposed && p.permits <= 0
    ensures r.1.Blocked? || p.disposed ==> r.0 == p
    ensures p.disposed ==> r.1 == Failed(ObjectDisposed)
    ensures r.1.Acquired? ==> && r.0.permits == p.permits - 1 && r.0.outstanding == p.outstanding + 1
    ensures r.1.Acquired? && r.1.reused ==>
              var k := |r.0.destroyed| - |p.destroyed|;
              && 0 <= k < |p.available|
              && (forall j :: 0 <= j < k ==> IsExpired(p.available[j], p.idleTimeout, now))
              && !IsExpired(p.available[k], p.idleTimeout, now)
              && r.1.conn == p.available[k].conn
              && r.0.available == p.available[k + 1..]
              && r.0.destroyed == p.destroyed + Conns(p.available[..k])
              && r.0.live == p.live - k
    ensures !p.disposed && p.permits > 0 && (r.1.Failed? || !r.1.reused) ==>
              && (forall j :: 0 <= j < |p.available| ==> IsExpired(p.available[j], p.idleTimeout, now))
              && r.0.available == [] && r.0.destroyed == p.destroyed + Conns(p.available)
    ensures r.1.Acquired? && !r.1.reused ==> made == Some(r.1.conn)
    ensures r.1.Failed? && !p.disposed ==> && made.None? && r.1.error == ConnectionFactoryFailed
                                           && r.0.permits == p.permits && r.0.outstanding == p.outstanding
  {
    if p.disposed then (p, Failed(ObjectDisposed))
    else if p.permits <= 0 then (p, Blocked)
    else
      var (rest, found, expired) := PopIdle(p.available, p.idleTimeout, now);
      var p1 := p.(available := rest, destroyed := p.destroyed + expired, live := p.live - |expired|);
      match found
      case Some(c) =>
        (p1.(permits := p.permits - 1, outstanding := p.outstanding + 1), Acquired(c, true))
      case None =>
        match made
        case None => (p1, Failed(ConnectionFactoryFailed))
        case Some(c) =>
          (p1.(permits := p.permits - 1, outstanding := p.outstanding + 1, live := p1.live + 1), Acquired(c, false))
  }

  /** `Return`: a returned connection goes on top of the idle stack with
      the current time and gives its permit back; once the pool is
      disposed it is disposed instead. */
  function Return(p: Pool, conn: nat, now: int): (r: Pool)
    requires Valid(p) && p.outstanding > 0
    ensures Valid(r) && r.outstanding == p.outstanding - 1 && r.disposed == p.disposed
    ensures !p.disposed ==> && r.available == [Pooled(conn, now)] + p.available
                            && r.permits == p.permits + 1 && r.destroyed == p.destroyed
    ensures p.disposed ==> && r.destroyed == p.destroyed + [conn] && r.live == p.live - 1
                           && r.available == [] && r.permits == p.permits
  {
    if p.disposed then
      p.(destroyed := p.destroyed + [conn], live := p.live - 1, outstanding := p.outstanding - 1)
    else
      p.(available := [Pooled(conn, now)] + p.available, permits := p.permits + 1, outstanding := p.outstanding - 1)
  }

  /** The idle entries that survive a sweep at `now`, in stack order. */
  function Survivors(items: seq<Pooled>, idleTimeout: int, now: int): seq<Pooled> {
    if |items| == 0 then []
    else (if IsExpired(items[0], idleTimeout, now) then [] else [items[0]])
         + Survivors(items[1..], idleTimeout, now)
  }

  /** The connections of the entries a sweep at `now` disposes, top first. */
  function Expired(items: seq<Pooled>, idleTimeout: int, now: int): seq<nat> {
    if |items| == 0 then []
    else (if IsExpired(items[0], idleTimeout, now) then [items[0].conn] else [])
         + Expired(items[1..], idleTimeout, now)
  }

  lemma {:induction false} SurvivorsAppend(a: seq<Pooled>, b: seq<Pooled>, idleTimeout: int, now: int)
    ensures Survivors(a + b, idleTimeout, now) == Survivors(a, idleTimeout, now) + Survivors(b, idleTimeout, now)
    ensures Expired(a + b, idleTimeout, now) == Expired(a, idleTimeout, now) + Expired(b, idleTimeout, now)
  {
    SurvivorsOfAppend(a, b, idleTimeout, now);
    ExpiredOfAppend(a, b, idleTimeout, now);
  }

  lemma {:induction false} SurvivorsOfAppend(a: seq<Pooled>, b: seq<Pooled>, idleTimeout: int, now: int)
    ensures Survivors(a + b, idleTimeout, now) == Survivors(a, idleTimeout, now) + Survivors(b, idleTimeout, now)
    decreases |a|
  {
    if |a| == 0 {
      assert a + b == b;
    } else {
      assert (a + b)[0] == a[0] && (a + b)[1..] == a[1..] + b;
      SurvivorsOfAppend(a[1..], b, idleTimeout, now);
    }
  }

  lemma {:induction false} ExpiredOfAppend(a: seq<Pooled>, b: seq<Pooled>, idleTimeout: int, now: int)
    ensures Expired(a + b, idleTimeout, now) == Expired(a, idleTimeout, now) + Expired(b, idleTimeout, now)
    decreases |a|
  {
    if |a| == 0 {
      assert a + b == b;
    } else {
      var h := if IsExpired(a[0], idleTimeout, now) then [a[0].conn] else [];
      assert (a + b)[0] == a[0] && (a + b)[1..] == a[1..] + b;
      assert Expired(a + b, idleTimeout, now) == h + Expired(a[1..] + b, idleTimeout, now);
      ExpiredOfAppend(a[1..], b, idleTimeout, now);
    }
  }

  /** A sweep keeps every entry that has not expired, in order, and
      exactly those; it disposes one connection per expired entry. */
  lemma {:induction false} SurvivorsExact(items: seq<Pooled>, idleTimeout: int, now: int)
    ensures forall x :: x in Survivors(items, idleTimeout, now) <==> x in items && !IsExpired(x, idleTimeout, now)
    ensures |Survivors(items, idleTimeout, now)| + |Expired(items, idleTimeout, now)| == |items|
    decreases |items|
  {
    if |items| > 0 {
      SurvivorsExact(items[1..], idleTimeout, now);
      assert items == [items[0]] + items[1..];
      assert forall x :: x in items <==> x == items[0] || x in items[1..];
    }
  }

  /** `SweepOnce`: pops every idle entry, disposes the expired ones and
      pushes the survivors back so that they keep their stack order. */
  method Sweep(p: Pool, now: int) returns (r: Pool)
    requires Valid(p)
    ensures Valid(r)
    ensures r.available == Survivors(p.available, p.idleTimeout, now)
    ensures r.destroyed == p.destroyed + Expired(p.available, p.idleTimeout, now)
    ensures r.live == p.live - |Expired(p.available, p.idleTimeout, now)|
    ensures r.permits == p.permits && r.outstanding == p.outstanding && r.disposed == p.disposed
  {
    var survivors, expired := PopAll(p.available, p.idleTimeout, now);
    SurvivorsExact(p.available, p.idleTimeout, now);
    var stack := PushBack(survivors);
    r := p.(available := stack, destroyed := p.destroyed + expired, live := p.live - |expired|);
  }

  /** The sweep's pop loop: survivors are collected top first, expired
      entries disposed. */
  method PopAll(items: seq<Pooled>, idleTimeout: int, now: int) returns (survivors: seq<Pooled>, expired: seq<nat>)
    ensures survivors == Survivors(items, idleTimeout, now)
    ensures expired == Expired(items, idleTimeout, now)
  {
    survivors, expired := [], [];
    var popped := 0;  // entries popped off the top of the stack so far
    while popped < |items|
      invariant popped <= |items|
      invariant survivors == Survivors(items[..popped], idleTimeout, now)
      invariant expired == Expired(items[..popped], idleTimeout, now)
    {
      var item := items[popped];
      SurvivorsAppend(items[..popped], [item], idleTimeout, now);
      assert items[..popped + 1] == items[..popped] + [item];
      if IsExpired(item, idleTimeout, now) {
        expired := expired + [item.conn];
      } else {
        survivors := survivors + [item];
      }
      popped := popped + 1;
    }
    assert items[..|items|] == items;
  }

  /** The sweep's push loop: pushing from the last survivor to the first
      restores their order on the stack. */
  method PushBack(survivors: seq<Pooled>) returns (stack: seq<Pooled>)
    ensures stack == survivors
  {
    stack := [];
    var i := |survivors|;
    while i > 0
      invariant 0 <= i <= |survivors| && stack == survivors[i..]
    {
      i := i - 1;
      stack := [survivors[i]] + stack;
    }
  }

  /** `DisposeAsync` / `Dispose`: the first call marks the pool disposed
      and disposes every idle connection; `_live` is not decremented for
      them. Later calls do nothing. */
  function Dispose(p: Pool): (r: Pool)
    requires Valid(p)
    ensures Valid(r) && r.disposed && r.available == []
    ensures !p.disposed ==> r.destroyed == p.destroyed + Conns(p.available) && r.live == p.live
    ensures p.disposed ==> r == p
  {
    if p.disposed then p
    else p.(disposed := true, destroyed := p.destroyed + Conns(p.available), available := [])
  }

  lemma DisposeIdempotent(p: Pool)
    requires Valid(p)
    ensures Dispose(Dispose(p)) == Dispose(p)
  {
  }

  /** Borrowing the connection on top of the idle stack and returning it
      leaves the pool as it was, except for the connection's timestamp. */
  lemma BorrowReturn(p: Pool, now: int, later: int, made: Option<nat>)
    requires Valid(p) && !p.disposed && p.permits > 0
    requires |p.available| > 0 && !IsExpired(p.available[0], p.idleTimeout, now)
    ensures var (p1, got) := Acquire(p, now, made);
            && got == Acquired(p.available[0].conn, true)
            && Return(p1, got.conn, later)
               == p.(available := [Pooled(got.conn, later)] + p.available[1..])
  {
  }
}
