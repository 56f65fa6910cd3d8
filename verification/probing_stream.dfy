/** `ProbingStream` (backend/Streams/ProbingStream.cs): wraps a stream and
    answers whether it is empty by reading one byte ahead, which later
    reads relay first so the wrapped stream's content is unchanged. */
module ProbingStream {
  import opened Bytes
  import opened Wrappers

  datatype Probing = Probing(
    inner: seq<byte>,       // what the wrapped stream still yields
    isEmpty: Option<bool>,  // the memoised answer
    probe: Option<byte>,    // the byte read ahead and not yet relayed
    disposed: bool,
    innerDisposals: nat)

  function Wrap(inner: seq<byte>): (p: Probing)
    ensures Valid(p) && Content(p) == inner
  {
    Probing(inner, None, None, false, 0)
  }

  /** What the probing stream still yields: the probe byte, then the rest
      of the wrapped stream. */
  function Content(p: Probing): seq<byte> {
    (if p.probe.Some? then [p.probe.value] else []) + p.inner
  }

  /** A probe byte is only ever held after a non-empty probe. */
  ghost predicate Valid(p: Probing) {
    p.probe.Some? ==> p.isEmpty == Some(false)
  }

  /** `IsEmptyAsync`: memoised; the first call reads one byte and keeps it. */
  function IsEmpty(p: Probing): (r: (Probing, bool))
    requires Valid(p)
    ensures Valid(r.0) && Content(r.0) == Content(p)
    ensures r.0.isEmpty == Some(r.1)
    ensures p.isEmpty.None? ==> (r.1 <==> Content(p) == [])
    ensures p.isEmpty.Some? ==> r == (p, p.isEmpty.value)
  {
    if p.isEmpty.Some? then (p, p.isEmpty.value)
    else if |p.inner| == 0 then (p.(isEmpty := Some(true)), true)
    else (p.(isEmpty := Some(false), probe := Some(p.inner[0]), inner := p.inner[1..]), false)
  }

  /** `Read(byte[], offset, count)` and `ReadAsync(byte[], offset, count)`.
      With a probe byte held and `count == 0` the probe byte is dropped and
      the wrapped stream rejects the negative count. */
  function ReadArray(p: Probing, count: nat): (r: (Probing, Result<seq<byte>>))
    requires Valid(p)
    ensures Valid(r.0)
    ensures r.1.Err? <==> count == 0 && p.probe.Some?
    ensures r.1.Err? ==> r.1.error == ArgumentOutOfRange && r.0.probe.None?
    ensures r.1.Ok? ==> && r.1.value + Content(r.0) == Content(p)
                        && |r.1.value| <= count
                        && (count > 0 && Content(p) != [] ==> |r.1.value| > 0)
    ensures p.isEmpty.None? ==> r.0.isEmpty == Some(count == 0 || Content(p) == [])
    ensures p.isEmpty.Some? ==> r.0.isEmpty == p.isEmpty
  {
    if p.isEmpty.None? then
      var read := Take(p.inner, count);
      (p.(inner := Drop(p.inner, count), isEmpty := Some(|read| == 0)), Ok(read))
    else if p.probe.Some? then
      var p1 := p.(probe := None);
      if count == 0 then (p1, Err(ArgumentOutOfRange))
      else
        var read := Take(p.inner, count - 1);
        (p1.(inner := Drop(p.inner, count - 1)), Ok([p.probe.value] + read))
    else
      (p.(inner := Drop(p.inner, count)), Ok(Take(p.inner, count)))
  }

  /** `ReadAsync(Memory<byte>)`: like the array reads, except that an empty
      buffer leaves a held probe byte in place. */
  function ReadMemory(p: Probing, count: nat): (r: (Probing, seq<byte>))
    requires Valid(p)
    ensures Valid(r.0)
    ensures r.1 + Content(r.0) == Content(p)
    ensures |r.1| <= count
    ensures count > 0 && Content(p) != [] ==> |r.1| > 0
    ensures p.isEmpty.None? ==> r.0.isEmpty == Some(count == 0 || Content(p) == [])
    ensures p.isEmpty.Some? ==> r.0.isEmpty == p.isEmpty
  {
    if p.isEmpty.None? then
      var read := Take(p.inner, count);
      (p.(inner := Drop(p.inner, count), isEmpty := Some(|read| == 0)), read)
    else if p.probe.Some? then
      if count == 0 then (p, [])
      else
        var read := Take(p.inner, count - 1);
        (p.(probe := None, inner := Drop(p.inner, count - 1)), [p.probe.value] + read)
    else
      (p.(inner := Drop(p.inner, count)), Take(p.inner, count))
  }

  /** The operations a caller can apply to the stream. */
  datatype Op = Probe | ReadArrayOp(count: nat) | ReadMemoryOp(count: nat)

  /** One operation: a probe reads nothing. */
  function Step(p: Probing, op: Op): (r: (Probing, Result<seq<byte>>))
    requires Valid(p)
    ensures Valid(r.0)
    ensures r.1.Ok? ==> r.1.value + Content(r.0) == Content(p)
    ensures op != ReadArrayOp(0) ==> r.1.Ok?
  {
    match op
    case Probe => (IsEmpty(p).0, Ok([]))
    case ReadArrayOp(n) => ReadArray(p, n)
    case ReadMemoryOp(n) => (ReadMemory(p, n).0, Ok(ReadMemory(p, n).1))
  }

  /** Applies `ops` in order; the bytes read are concatenated and the first
      failure stops the run. */
  function Run(p: Probing, ops: seq<Op>): (r: (Probing, Result<seq<byte>>))
    requires Valid(p)
    ensures Valid(r.0)
    decreases |ops|
  {
    if |ops| == 0 then (p, Ok([]))
    else
      var (p1, d1) := Step(p, ops[0]);
      if d1.Err? then (p1, d1)
      else
        var (p2, d2) := Run(p1, ops[1..]);
        if d2.Err? then (p2, d2) else (p2, Ok(d1.value + d2.value))
  }

  predicate NoEmptyArrayRead(ops: seq<Op>) {
    forall i :: 0 <= i < |ops| ==> ops[i] != ReadArrayOp(0)
  }

  /** Probing is invisible to readers: whatever mix of probes and reads is
      applied, the bytes read are the wrapped stream's bytes in order, and
      nothing fails unless an empty array read meets a held probe byte. */
  lemma {:induction false} Transparent(p: Probing, ops: seq<Op>)
    requires Valid(p)
    ensures Run(p, ops).1.Ok? ==> Run(p, ops).1.value + Content(Run(p, ops).0) == Content(p)
    ensures NoEmptyArrayRead(ops) ==> Run(p, ops).1.Ok?
    decreases |ops|
  {
    if |ops| > 0 {
      var r1 := Step(p, ops[0]);
      Transparent(r1.0, ops[1..]);
      if r1.1.Ok? {
        var r2 := Run(r1.0, ops[1..]);
        if r2.1.Ok? {
          assert Run(p, ops) == (r2.0, Ok(r1.1.value + r2.1.value));
          Associative(r1.1.value, r2.1.value, Content(r2.0));
        }
      }
      if NoEmptyArrayRead(ops) {
        assert ops[0] != ReadArrayOp(0);
        assert NoEmptyArrayRead(ops[1..]) by {
          assert forall i :: 0 <= i < |ops[1..]| ==> ops[1..][i] == ops[i + 1];
        }
      }
    }
  }

  /** A stream probed before anything else is read is reported empty
      exactly when it has no bytes, and the answer never changes. */
  lemma ProbeFirst(s: seq<byte>)
    ensures var (p, empty) := IsEmpty(Wrap(s));
            && (empty <==> s == [])
            && IsEmpty(p) == (p, empty)
  {
  }

  /** An empty read before the first probe settles the answer as "empty",
      whatever the wrapped stream holds. */
  lemma EmptyReadBeforeProbe(s: seq<byte>)
    ensures IsEmpty(ReadMemory(Wrap(s), 0).0).1
    ensures IsEmpty(ReadArray(Wrap(s), 0).0).1
  {
  }

  /** `Dispose` / `DisposeAsync`: disposes the wrapped stream the first time. */
  function Dispose(p: Probing): (p': Probing)
    ensures p'.disposed
    ensures p'.innerDisposals == if p.disposed then p.innerDisposals else p.innerDisposals + 1
    ensures Content(p') == Content(p)
  {
    if p.disposed then p else p.(disposed := true, innerDisposals := p.innerDisposals + 1)
  }
}
