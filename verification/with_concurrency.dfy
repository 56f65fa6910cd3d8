/** `WithConcurrency` (backend/Extensions/IEnumerableTaskExtensions.cs):
    hands out tasks in their original order while keeping up to
    `concurrency` of them started ahead of the consumer.

    Enumerating the source sequence is what starts a task, so the model
    records, for every task handed out, how many source tasks had been
    started ("pulled") at the moment it was handed out. */
module WithConcurrency {
  import opened Wrappers

  /** A task handed to the consumer, with the number of source tasks
      started by then. */
  datatype Yielded<T> = Yielded(task: T, pulled: nat)

  /** How many source tasks have been started when the task at `index` is
      handed out: the first goes out as soon as it starts, each later one
      once `concurrency` tasks are queued behind the first, or when the
      source runs out. */
  function PulledWhenYielded(index: nat, concurrency: nat, n: nat): nat {
    if index == 0 then 1
    else if index + concurrency <= n then index + concurrency
    else n
  }

  /** The whole enumeration of `WithConcurrency(tasks, concurrency)`. */
  method Enumerate<T>(tasks: seq<T>, concurrency: int) returns (r: Result<seq<Yielded<T>>>)
    ensures r.Err? <==> concurrency < 1
    ensures r.Err? ==> r.error == ArgumentInvalid
    ensures r.Ok? ==> |r.value| == |tasks|
    ensures r.Ok? ==> forall i :: 0 <= i < |tasks| ==>
              r.value[i] == Yielded(tasks[i], PulledWhenYielded(i, concurrency, |tasks|))
  {
    if concurrency < 1 {
      return Err(ArgumentInvalid);
    }
    var n := |tasks|;
    var out: seq<Yielded<T>> := [];
    if concurrency == 1 {
      var i := 0;
      while i < n
        invariant 0 <= i <= n && |out| == i
        invariant forall j :: 0 <= j < i ==> out[j] == Yielded(tasks[j], PulledWhenYielded(j, 1, n))
      {
        out := out + [Yielded(tasks[i], i + 1)];
        i := i + 1;
      }
      return Ok(out);
    }

    var isFirst := true;
    var running: seq<nat> := [];  // indices of the queued tasks, oldest first
    var i := 0;
    while i < n
      invariant 0 <= i <= n
      invariant isFirst <==> i == 0
      invariant i == 0 ==> out == [] && running == []
      invariant i > 0 ==> |out| >= 1 && |out| + |running| == i
      invariant |running| < concurrency
      invariant forall j :: 0 <= j < |running| ==> running[j] == |out| + j
      invariant i > 0 && |running| + 1 < concurrency ==> |out| == 1
      invariant forall j :: 0 <= j < |out| ==> out[j] == Yielded(tasks[j], PulledWhenYielded(j, concurrency, n))
    {
      var pulled := i + 1;
      if isFirst {
        // help with time-to-first-byte
        out := out + [Yielded(tasks[i], pulled)];
        isFirst := false;
      } else {
        running := running + [i];
        if |running| >= concurrency {
          var head := running[0];
          assert head == |out|;
          assert head + concurrency == pulled;
          out := out + [Yielded(tasks[head], pulled)];
          running := running[1..];
        }
      }
      i := i + 1;
    }

    while |running| > 0
      invariant |out| + |running| == n
      invariant forall j :: 0 <= j < |running| ==> running[j] == |out| + j
      invariant n > 0 ==> |out| >= 1
      invariant |running| > 0 ==> |out| + concurrency > n
      invariant forall j :: 0 <= j < |out| ==> out[j] == Yielded(tasks[j], PulledWhenYielded(j, concurrency, n))
    {
      out := out + [Yielded(tasks[running[0]], n)];
      running := running[1..];
    }
    return Ok(out);
  }

  /** Order is preserved, no task is handed out before it was started, the
      first is handed out before any other starts, and no more than
      `concurrency - 1` started tasks wait behind the consumer. */
  lemma YieldDiscipline(index: nat, concurrency: nat, n: nat)
    requires concurrency >= 1 && index < n
    ensures index + 1 <= PulledWhenYielded(index, concurrency, n) <= n
    ensures index == 0 ==> PulledWhenYielded(index, concurrency, n) == 1
    ensures PulledWhenYielded(index, concurrency, n) - (index + 1) <= concurrency - 1
  {
  }

  /** When the consumer stops after taking `taken` tasks, the tasks started
      but not handed out, oldest first, are the ones whose results get
      disposed; there are at most `concurrency - 1` of them. */
  function DisposedOnAbandon(taken: nat, concurrency: nat, n: nat): (r: seq<nat>)
    requires concurrency >= 1 && 0 < taken <= n
    ensures |r| == PulledWhenYielded(taken - 1, concurrency, n) - taken <= concurrency - 1
    ensures forall j :: 0 <= j < |r| ==> r[j] == taken + j && r[j] < n
  {
    var pulled := PulledWhenYielded(taken - 1, concurrency, n);
    seq(pulled - taken, j => taken + j)
  }

  /** `WithConcurrency(tasks, concurrency)` enumerated by a consumer that
      stops after taking `taken` tasks: the tasks it received, and the
      started tasks the `finally` block hands over for disposal, oldest
      first. A consumer that takes everything leaves nothing to dispose. */
  method EnumerateUntil<T>(tasks: seq<T>, concurrency: int, taken: nat) returns (r: Result<(seq<Yielded<T>>, seq<T>)>)
    ensures r.Err? <==> concurrency < 1
    ensures r.Err? ==> r.error == ArgumentInvalid
    ensures r.Ok? ==> |r.value.0| == (if taken < |tasks| then taken else |tasks|)
    ensures r.Ok? ==> forall i :: 0 <= i < |r.value.0| ==>
              r.value.0[i] == Yielded(tasks[i], PulledWhenYielded(i, concurrency, |tasks|))
    ensures r.Ok? && concurrency >= 1 && 0 < taken <= |tasks| ==>
              var d := DisposedOnAbandon(taken, concurrency, |tasks|);
              |r.value.1| == |d| && forall j :: 0 <= j < |d| ==> r.value.1[j] == tasks[d[j]]
    ensures r.Ok? && (taken == 0 || taken >= |tasks|) ==> r.value.1 == []
  {
    if concurrency < 1 {
      return Err(ArgumentInvalid);
    }
    var n := |tasks|;
    var out: seq<Yielded<T>> := [];
    if concurrency == 1 {
      // no queue, so nothing is ever left to dispose
      var i := 0;
      while i < n && i < taken
        invariant 0 <= i <= n && i <= taken && |out| == i
        invariant forall j :: 0 <= j < i ==> out[j] == Yielded(tasks[j], PulledWhenYielded(j, 1, n))
      {
        out := out + [Yielded(tasks[i], i + 1)];
        i := i + 1;
      }
      return Ok((out, []));
    }
    if taken == 0 {
      return Ok((out, []));
    }

    var isFirst := true;
    var running: seq<nat> := [];  // indices of the queued tasks, oldest first
    var i := 0;
    while i < n && |out| < taken
      invariant 0 <= i <= n
      invariant isFirst <==> i == 0
      invariant i == 0 ==> out == [] && running == []
      invariant i > 0 ==> |out| >= 1 && |out| + |running| == i
      invariant |out| <= taken
      invariant |running| < concurrency
      invariant forall j :: 0 <= j < |running| ==> running[j] == |out| + j
      invariant i > 0 && |running| + 1 < concurrency ==> |out| == 1
      invariant |out| == taken ==> |out| + |running| == PulledWhenYielded(taken - 1, concurrency, n)
      invariant forall j :: 0 <= j < |out| ==> out[j] == Yielded(tasks[j], PulledWhenYielded(j, concurrency, n))
    {
      var pulled := i + 1;
      if isFirst {
        out := out + [Yielded(tasks[i], pulled)];
        isFirst := false;
      } else {
        running := running + [i];
        if |running| >= concurrency {
          var head := running[0];
          assert head == |out|;
          assert head + concurrency == pulled;
          out := out + [Yielded(tasks[head], pulled)];
          running := running[1..];
        }
      }
      i := i + 1;
    }

    if |out| < taken {
      out, running := Drain(tasks, concurrency, taken, out, running);
    }
    // the `finally` block: whatever is still queued is disposed
    var disposed := seq(|running|, j requires 0 <= j < |running| => tasks[running[j]]);
    return Ok((out, disposed));
  }

  /** Once the source has run out, the queued tasks are handed out oldest
      first, each with every source task started, until the consumer has
      taken `taken` of them or the queue is empty. */
  method Drain<T>(tasks: seq<T>, concurrency: nat, taken: nat, out: seq<Yielded<T>>, running: seq<nat>)
    returns (out': seq<Yielded<T>>, running': seq<nat>)
    requires |out| + |running| == |tasks| && |out| < taken
    requires forall j :: 0 <= j < |running| ==> running[j] == |out| + j
    requires |tasks| > 0 ==> |out| >= 1
    requires |running| > 0 ==> |out| + concurrency > |tasks|
    requires forall j :: 0 <= j < |out| ==> out[j] == Yielded(tasks[j], PulledWhenYielded(j, concurrency, |tasks|))
    ensures |out'| + |running'| == |tasks| && |out'| <= taken
    ensures |out'| < taken ==> running' == []
    ensures forall j :: 0 <= j < |running'| ==> running'[j] == |out'| + j
    ensures |out'| == taken ==> |out'| + |running'| == PulledWhenYielded(taken - 1, concurrency, |tasks|)
    ensures forall j :: 0 <= j < |out'| ==> out'[j] == Yielded(tasks[j], PulledWhenYielded(j, concurrency, |tasks|))
  {
    var n := |tasks|;
    out', running' := out, running;
    while |running'| > 0 && |out'| < taken
      invariant |out'| + |running'| == n
      invariant |out'| <= taken
      invariant forall j :: 0 <= j < |running'| ==> running'[j] == |out'| + j
      invariant n > 0 ==> |out'| >= 1
      invariant |running'| > 0 && |out'| < taken ==> |out'| + concurrency > n
      invariant |out'| == taken ==> |out'| + |running'| == PulledWhenYielded(taken - 1, concurrency, n)
      invariant forall j :: 0 <= j < |out'| ==> out'[j] == Yielded(tasks[j], PulledWhenYielded(j, concurrency, n))
    {
      out' := out' + [Yielded(tasks[running'[0]], n)];
      running' := running'[1..];
    }
  }
}
