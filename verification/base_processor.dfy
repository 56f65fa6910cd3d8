/** `BaseProcessor.Result` (backend/Queue/FileProcessors/BaseProcessor.cs):
    the result of processing one NZB file, either a RAR volume or a plain
    file. */
module BaseProcessor {
  import RA = RarAggregator
  import FP = FileProcessor

  datatype ProcessorResult = RarPart(part: RA.ArchivePart) | FilePart(file: FP.FileResult)

  /** `OfType<RarProcessor.Result>()`: the RAR volumes, in order. */
  function RarParts(results: seq<ProcessorResult>): (r: seq<RA.ArchivePart>)
    ensures |r| <= |results|
    ensures forall p :: p in r <==> RarPart(p) in results
    decreases |results|
  {
    if |results| == 0 then []
    else
      var rest := RarParts(results[1..]);
      assert forall x :: x in results <==> x == results[0] || x in results[1..];
      if results[0].RarPart? then [results[0].part] + rest else rest
  }

  /** Position `i` of `results` holds a RAR volume. */
  predicate RarAt(results: seq<ProcessorResult>, i: int) {
    0 <= i < |results| && results[i].RarPart?
  }

  /** `idx` picks out `r` from `results`: the picked entries are the RAR
      volumes of `r`, in increasing position, and every RAR volume of
      `results` is picked. */
  predicate SelectsRarParts(results: seq<ProcessorResult>, r: seq<RA.ArchivePart>, idx: seq<nat>) {
    && |idx| == |r|
    && (forall k :: 0 <= k < |idx| ==> idx[k] < |results| && results[idx[k]] == RarPart(r[k]))
    && (forall k, l :: 0 <= k < l < |idx| ==> idx[k] < idx[l])
    && (forall i :: 0 <= i < |results| && RarAt(results, i) ==> exists k :: 0 <= k < |idx| && idx[k] == i)
  }

  function Shift(idx: seq<nat>): (r: seq<nat>)
    ensures |r| == |idx| && forall k :: 0 <= k < |idx| ==> r[k] == idx[k] + 1
  {
    seq(|idx|, k requires 0 <= k < |idx| => idx[k] + 1)
  }

  /** Selecting from the tail shifts by one onto the whole sequence. */
  lemma ShiftSelects(results: seq<ProcessorResult>, r: seq<RA.ArchivePart>, idx: seq<nat>)
    requires |results| > 0 && SelectsRarParts(results[1..], r, idx)
    ensures var sh := Shift(idx);
            && |sh| == |r|
            && (forall k :: 0 <= k < |sh| ==> 0 < sh[k] < |results| && results[sh[k]] == RarPart(r[k]))
            && (forall k, l :: 0 <= k < l < |sh| ==> sh[k] < sh[l])
            && (forall i :: 1 <= i && RarAt(results, i) ==> exists k :: 0 <= k < |sh| && sh[k] == i)
  {
    var sh := Shift(idx);
    var tail := results[1..];
    forall k | 0 <= k < |sh|
      ensures 0 < sh[k] < |results| && results[sh[k]] == RarPart(r[k])
    {
      assert tail[idx[k]] == results[sh[k]];
    }
    forall i | 1 <= i && RarAt(results, i)
      ensures exists k :: 0 <= k < |sh| && sh[k] == i
    {
      assert tail[i - 1] == results[i];
      assert RarAt(tail, i - 1);
      var k :| 0 <= k < |idx| && idx[k] == i - 1;
      assert sh[k] == i;
    }
  }

  /** Putting a RAR volume in front extends a selection by index 0. */
  lemma ConsSelects(results: seq<ProcessorResult>, r: seq<RA.ArchivePart>, idx: seq<nat>)
    requires |results| > 0 && results[0].RarPart? && SelectsRarParts(results[1..], r, idx)
    ensures SelectsRarParts(results, [results[0].part] + r, [0] + Shift(idx))
  {
    ShiftSelects(results, r, idx);
    var sh := Shift(idx);
    var idx2 := [0] + sh;
    var r2 := [results[0].part] + r;
    forall k | 0 <= k < |idx2|
      ensures idx2[k] < |results| && results[idx2[k]] == RarPart(r2[k])
    {
      if k > 0 {
        assert idx2[k] == sh[k - 1] && r2[k] == r[k - 1];
      }
    }
    forall k, l | 0 <= k < l < |idx2|
      ensures idx2[k] < idx2[l]
    {
      if k > 0 {
        assert idx2[k] == sh[k - 1] && idx2[l] == sh[l - 1];
      } else {
        assert idx2[l] == sh[l - 1];
      }
    }
    forall i | RarAt(results, i)
      ensures exists k :: 0 <= k < |idx2| && idx2[k] == i
    {
      if i > 0 {
        var k :| 0 <= k < |sh| && sh[k] == i;
        assert idx2[k + 1] == i;
      } else {
        assert idx2[0] == 0;
      }
    }
  }

  /** Putting anything else in front keeps the shifted selection. */
  lemma SkipSelects(results: seq<ProcessorResult>, r: seq<RA.ArchivePart>, idx: seq<nat>)
    requires |results| > 0 && !results[0].RarPart? && SelectsRarParts(results[1..], r, idx)
    ensures SelectsRarParts(results, r, Shift(idx))
  {
    ShiftSelects(results, r, idx);
  }

  /** `OfType` is an order-preserving filter: the volumes come out in the
      order of the results, each exactly once per occurrence. */
  lemma {:induction false} RarPartsInOrder(results: seq<ProcessorResult>)
    ensures exists idx :: SelectsRarParts(results, RarParts(results), idx)
    decreases |results|
  {
    if |results| == 0 {
      assert RarParts(results) == [];
      assert SelectsRarParts(results, [], []);
    } else {
      var tail := results[1..];
      RarPartsInOrder(tail);
      var idx' :| SelectsRarParts(tail, RarParts(tail), idx');
      if results[0].RarPart? {
        ConsSelects(results, RarParts(tail), idx');
        assert RarParts(results) == [results[0].part] + RarParts(tail);
        assert SelectsRarParts(results, RarParts(results), [0] + Shift(idx'));
      } else {
        SkipSelects(results, RarParts(tail), idx');
        assert SelectsRarParts(results, RarParts(results), Shift(idx'));
      }
    }
  }
}
