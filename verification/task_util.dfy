/** `TaskUtil.WhenAllOrError` (backend/Utils/TaskUtil.cs): waits for a
    set of tasks, collecting results in completion order and stopping at
    the first failed task.

    The scheduler is a parameter: the tasks' outcomes are given in the
    order in which they complete. */
module TaskUtil {
  import opened Wrappers
  import opened Arith

  /** How a task ended. A fault may carry no inner exception. */
  datatype Outcome<T> = Completed(value: T) | Faulted(inner: Option<Error>) | Canceled

  /** The exception rethrown for a faulted or canceled task. */
  function FailureOf<T>(o: Outcome<T>): Error
    requires !o.Completed?
  {
    match o
    case Faulted(Some(e)) => e
    case Faulted(None) => Transient("An unknown error occurred.")
    case Canceled => Transient("A task was canceled.")
  }

  /** The result of the wait and the progress percentages reported on the
      way. */
  datatype Waited<T> = Waited(result: Result<seq<T>>, progress: seq<int>)

  function Values<T>(outcomes: seq<Outcome<T>>): seq<T>
    requires forall i :: 0 <= i < |outcomes| ==> outcomes[i].Completed?
  {
    seq(|outcomes|, i requires 0 <= i < |outcomes| => outcomes[i].value)
  }

  /** Index of the first task to complete unsuccessfully, or `|outcomes|`. */
  function FirstFailure<T>(outcomes: seq<Outcome<T>>): (k: nat)
    ensures k <= |outcomes|
    ensures forall i :: 0 <= i < k ==> outcomes[i].Completed?
    ensures k < |outcomes| ==> !outcomes[k].Completed?
  {
    if |outcomes| == 0 || !outcomes[0].Completed? then 0 else 1 + FirstFailure(outcomes[1..])
  }

  method WhenAllOrError<T>(completionOrder: seq<Outcome<T>>) returns (w: Waited<T>)
    ensures var k := FirstFailure(completionOrder);
            && |w.progress| == k
            && (forall i :: 0 <= i < k ==> w.progress[i] == (i + 1) * 100 / |completionOrder|)
            && (k < |completionOrder| ==> w.result == Err(FailureOf(completionOrder[k])))
            && (k == |completionOrder| ==> w.result == Ok(Values(completionOrder)))
  {
    var results: seq<T> := [];
    var progress: seq<int> := [];
    var total := |completionOrder|;
    var completed := 0;
    while completed < total
      invariant completed <= FirstFailure(completionOrder)
      invariant |results| == completed && |progress| == completed
      invariant forall i :: 0 <= i < completed ==> results[i] == completionOrder[i].value
      invariant forall i :: 0 <= i < completed ==> progress[i] == (i + 1) * 100 / total
    {
      var task := completionOrder[completed];
      if !task.Completed? {
        return Waited(Err(FailureOf(task)), progress);
      }
      completed := completed + 1;
      results := results + [task.value];
      progress := progress + [completed * 100 / total];
    }
    assert results == Values(completionOrder);
    return Waited(Ok(results), progress);
  }

  /** The reported progress never goes down and ends at 100 when every
      task succeeded. */
  lemma ProgressMonotone(i: nat, j: nat, total: nat)
    requires i <= j < total
    ensures 0 <= (i + 1) * 100 / total <= (j + 1) * 100 / total <= 100
    ensures j == total - 1 ==> (j + 1) * 100 / total == 100
  {
    var a, b, c := (i + 1) * 100, (j + 1) * 100, total * 100;
    MulMono(i + 1, j + 1, 100);
    MulMono(j + 1, total, 100);
    DivMono(a, b, total);
    DivMono(b, c, total);
    DivUnique(c, total, 100, 0);
  }
}
