/** `ConnectionLock<T>` (backend/Clients/Connections/ConnectionLock.cs): a
    borrowed connection that goes back to its pool when the lock is
    disposed, through the synchronous or the asynchronous return callback.

    The callbacks are recorded in a log of returns instead of being run. */
module ConnectionLock {
  import opened Wrappers

  datatype Callback = SyncReturn | AsyncReturn

  /** A return of `conn` through one of the callbacks. */
  datatype Returned = Returned(conn: nat, via: Callback)

  datatype Lock = Lock(
    connection: Option<nat>,  // cleared on dispose
    disposed: bool,
    hasAsyncReturn: bool,
    returnLog: seq<Returned>)

  function New(conn: nat, hasAsyncReturn: bool): (l: Lock)
    ensures Connection(l) == Ok(conn) && l.returnLog == []
  {
    Lock(Some(conn), false, hasAsyncReturn, [])
  }

  /** The `Connection` getter: fails once the lock is disposed. */
  function Connection(l: Lock): (r: Result<nat>)
    ensures r.Err? <==> l.connection.None?
    ensures r.Err? ==> r.error == ObjectDisposed
  {
    match l.connection
    case Some(c) => Ok(c)
    case None => Err(ObjectDisposed)
  }

  /** A lock whose connection is still held has not been disposed. */
  ghost predicate Valid(l: Lock) {
    l.connection.Some? ==> !l.disposed
  }

  /** `Dispose`: the first call takes the connection out and returns it
      through the synchronous callback. */
  function Dispose(l: Lock): (r: Lock)
    requires Valid(l)
    ensures Valid(r) && r.disposed && r.connection.None? && r.hasAsyncReturn == l.hasAsyncReturn
    ensures l.disposed ==> r == l
    ensures !l.disposed ==> r.returnLog == l.returnLog + (if l.connection.Some? then [Returned(l.connection.value, SyncReturn)] else [])
  {
    if l.disposed then l
    else
      var returned := if l.connection.Some? then [Returned(l.connection.value, SyncReturn)] else [];
      l.(disposed := true, connection := None, returnLog := l.returnLog + returned)
  }

  /** `DisposeAsync`: like `Dispose`, but prefers the asynchronous
      callback when one was given. */
  function DisposeAsync(l: Lock): (r: Lock)
    requires Valid(l)
    ensures Valid(r) && r.disposed && r.connection.None? && r.hasAsyncReturn == l.hasAsyncReturn
    ensures l.disposed ==> r == l
    ensures !l.disposed ==> r.returnLog == l.returnLog + (if l.connection.Some? then [Returned(l.connection.value, if l.hasAsyncReturn then AsyncReturn else SyncReturn)] else [])
  {
    if l.disposed then l
    else
      var via := if l.hasAsyncReturn then AsyncReturn else SyncReturn;
      var returned := if l.connection.Some? then [Returned(l.connection.value, via)] else [];
      l.(disposed := true, connection := None, returnLog := l.returnLog + returned)
  }

  /** Applies a mix of disposals: `true` for `DisposeAsync`, `false` for
      `Dispose`. */
  function DisposeAll(l: Lock, calls: seq<bool>): (r: Lock)
    requires Valid(l)
    ensures Valid(r)
    decreases |calls|
  {
    if |calls| == 0 then l
    else DisposeAll(if calls[0] then DisposeAsync(l) else Dispose(l), calls[1..])
  }

  /** Whatever mix of `Dispose` and `DisposeAsync` calls is made, a fresh
      lock returns its connection exactly once, through the callback the
      first call chose. */
  lemma {:induction false} ReturnedOnce(conn: nat, hasAsyncReturn: bool, calls: seq<bool>)
    requires |calls| > 0
    ensures var via := if calls[0] && hasAsyncReturn then AsyncReturn else SyncReturn;
            DisposeAll(New(conn, hasAsyncReturn), calls).returnLog == [Returned(conn, via)]
  {
    var l := New(conn, hasAsyncReturn);
    var l1 := if calls[0] then DisposeAsync(l) else Dispose(l);
    DisposedStays(l1, calls[1..]);
  }

  /** Once disposed, further disposals change nothing. */
  lemma {:induction false} DisposedStays(l: Lock, calls: seq<bool>)
    requires Valid(l) && l.disposed
    ensures DisposeAll(l, calls) == l
    decreases |calls|
  {
    if |calls| > 0 {
      DisposedStays(if calls[0] then DisposeAsync(l) else Dispose(l), calls[1..]);
    }
  }
}
