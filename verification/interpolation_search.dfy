/** Interpolation search over a lazily discovered partition of a file's
    bytes into segments (backend/Utils/InterpolationSearch.cs).

    The callback that fetches a segment's header is modelled as a pure
    function `rangeOf` from segment index to that segment's byte range. */
module InterpolationSearch {
  import opened Wrappers
  import opened Arith

  /** A half-open range `[start, end)`. */
  datatype Range = Range(start: int, end: int) {
    function Count(): int {
      end - start
    }

    predicate Contains(value: int) {
      start <= value < end
    }

    predicate ContainsRange(other: Range) {
      other.start >= start && other.end <= end
    }

    predicate IsContainedWithin(other: Range) {
      other.ContainsRange(this)
    }
  }

  datatype Found = Found(index: int, range: Range)

  /** Ranges `rangeOf(i)` for `i` in `indices` are non-negative in size and
      lie end to end, exactly covering `bytes`. */
  ghost predicate Tiles(rangeOf: int -> Range, indices: Range, bytes: Range) {
    && indices.start <= indices.end
    && (indices.Count() == 0 ==> bytes.Count() <= 0)
    && (indices.Count() > 0 ==>
          rangeOf(indices.start).start == bytes.start && rangeOf(indices.end - 1).end == bytes.end)
    && (forall i :: indices.start <= i < indices.end ==> rangeOf(i).start <= rangeOf(i).end)
    && (forall i :: indices.start <= i < indices.end - 1 ==> rangeOf(i).end == rangeOf(i + 1).start)
  }

  /** Every range of a tiling lies inside the tiled bytes. */
  lemma TileWithinBounds(rangeOf: int -> Range, indices: Range, bytes: Range, i: int)
    requires Tiles(rangeOf, indices, bytes)
    requires indices.Contains(i)
    ensures rangeOf(i).IsContainedWithin(bytes)
  {
    StartsAfter(rangeOf, indices, i);
    EndsBefore(rangeOf, indices, i);
  }

  lemma {:induction false} StartsAfter(rangeOf: int -> Range, indices: Range, i: int)
    requires indices.start <= i < indices.end
    requires forall j :: indices.start <= j < indices.end ==> rangeOf(j).start <= rangeOf(j).end
    requires forall j :: indices.start <= j < indices.end - 1 ==> rangeOf(j).end == rangeOf(j + 1).start
    ensures rangeOf(indices.start).start <= rangeOf(i).start
    decreases i - indices.start
  {
    if i > indices.start {
      StartsAfter(rangeOf, indices, i - 1);
    }
  }

  lemma {:induction false} EndsBefore(rangeOf: int -> Range, indices: Range, i: int)
    requires indices.start <= i < indices.end
    requires forall j :: indices.start <= j < indices.end ==> rangeOf(j).start <= rangeOf(j).end
    requires forall j :: indices.start <= j < indices.end - 1 ==> rangeOf(j).end == rangeOf(j + 1).start
    ensures rangeOf(i).end <= rangeOf(indices.end - 1).end
    decreases indices.end - i
  {
    if i < indices.end - 1 {
      EndsBefore(rangeOf, indices, i + 1);
    }
  }

  /** The interpolated guess `i0 + floor((T - b0) / (bytes / indices))`,
      computed exactly in integers; it always lies in the index range. */
  function Guess(target: int, indices: Range, bytes: Range): (g: int)
    requires bytes.Contains(target) && indices.Count() > 0
    ensures indices.Contains(g)
  {
    GuessBound(target - bytes.start, indices.Count(), bytes.Count());
    indices.start + ((target - bytes.start) * indices.Count()) / bytes.Count()
  }

  lemma GuessBound(fromStart: int, count: int, total: int)
    requires 0 <= fromStart < total && count > 0
    ensures 0 <= (fromStart * count) / total < count
  {
    MulMono(fromStart, total, count);
    MulMono(0, fromStart, count);
    assert fromStart * count < total * count by {
      MulMono(fromStart + 1, total, count);
      assert (fromStart + 1) * count == fromStart * count + count;
    }
    var q := (fromStart * count) / total;
    if q >= count {
      MulMono(count, q, total);
    }
  }

  /** `Find`: narrows the index and byte ranges until the guessed segment's
      range contains `target`. `probes` counts calls of the header callback.
      A found range always contains the target; an error is only ever
      "corrupt file"; and on a genuine tiling the search always succeeds. */
  method Find(target: int, indices: Range, bytes: Range, rangeOf: int -> Range)
    returns (r: Result<Found>, probes: nat)
    ensures r.Ok? ==> && r.value.range == rangeOf(r.value.index)
                      && r.value.range.Contains(target)
                      && indices.Contains(r.value.index)
                      && bytes.Contains(target)
    ensures r.Err? ==> r.error == CorruptFile
    ensures Tiles(rangeOf, indices, bytes) && bytes.Contains(target) ==> r.Ok?
    ensures FirstGuessHits(target, indices, bytes, rangeOf) ==>
              var g := Guess(target, indices, bytes);
              r == Ok(Found(g, rangeOf(g))) && probes == 1
  {
    var idx := indices;
    var byt := bytes;
    probes := 0;
    ghost var tiled := Tiles(rangeOf, indices, bytes) && bytes.Contains(target);
    while true
      invariant indices.start <= idx.start && idx.end <= indices.end
      invariant probes == 0 ==> idx == indices && byt == bytes
      invariant probes > 0 ==> bytes.Contains(target)
      invariant probes > 0 ==> !FirstGuessHits(target, indices, bytes, rangeOf)
      invariant tiled ==> Tiles(rangeOf, idx, byt) && byt.Contains(target)
      decreases idx.end - idx.start
    {
      // make sure the search is even possible
      if !byt.Contains(target) || idx.Count() <= 0 {
        return Err(CorruptFile), probes;
      }

      var guess := Guess(target, idx, byt);
      var guessed := rangeOf(guess);
      probes := probes + 1;

      // the guessed segment must lie inside the current search space
      if tiled {
        TileWithinBounds(rangeOf, idx, byt, guess);
      }
      if !guessed.IsContainedWithin(byt) {
        return Err(CorruptFile), probes;
      }

      if guessed.end <= target {
        // guessed too low: search above the guess
        if tiled {
          NarrowUp(rangeOf, idx, byt, guess, target);
        }
        idx := idx.(start := guess + 1);
        byt := byt.(start := guessed.end);
      } else if guessed.start > target {
        // guessed too high: search below the guess
        if tiled {
          NarrowDown(rangeOf, idx, byt, guess, target);
        }
        idx := idx.(end := guess);
        byt := byt.(end := guessed.start);
      } else {
        // neither too low nor too high, so the guess contains the target
        assert guessed.Contains(target);
        return Ok(Found(guess, guessed)), probes;
      }
    }
  }

  /** The segments above a guess that ends at or before the target tile
      the bytes from its end, which still hold the target. */
  lemma NarrowUp(rangeOf: int -> Range, idx: Range, byt: Range, guess: int, target: int)
    requires Tiles(rangeOf, idx, byt) && byt.Contains(target) && idx.Contains(guess)
    requires rangeOf(guess).end <= target
    ensures Tiles(rangeOf, idx.(start := guess + 1), byt.(start := rangeOf(guess).end))
    ensures byt.(start := rangeOf(guess).end).Contains(target)
  {
    TileWithinBounds(rangeOf, idx, byt, guess);
  }

  /** The segments below a guess that starts after the target tile the
      bytes up to its start, which still hold the target. */
  lemma NarrowDown(rangeOf: int -> Range, idx: Range, byt: Range, guess: int, target: int)
    requires Tiles(rangeOf, idx, byt) && byt.Contains(target) && idx.Contains(guess)
    requires rangeOf(guess).start > target
    ensures Tiles(rangeOf, idx.(end := guess), byt.(end := rangeOf(guess).start))
    ensures byt.(end := rangeOf(guess).start).Contains(target)
  {
    TileWithinBounds(rangeOf, idx, byt, guess);
  }

  /** The first guess already names a segment inside the search space
      whose range contains the target. */
  predicate FirstGuessHits(target: int, indices: Range, bytes: Range, rangeOf: int -> Range) {
    && bytes.Contains(target) && indices.Count() > 0
    && rangeOf(Guess(target, indices, bytes)).Contains(target)
    && rangeOf(Guess(target, indices, bytes)).IsContainedWithin(bytes)
  }

  /** Segments that all hold exactly `size` bytes, end to end from 0. */
  ghost predicate Uniform(rangeOf: int -> Range, n: int, size: int) {
    forall i :: 0 <= i < n ==> rangeOf(i) == Range(i * size, (i + 1) * size)
  }

  /** On equal-sized segments the first interpolated guess is already the
      right segment, so `Find` needs exactly one header fetch. */
  lemma UniformFirstGuess(target: int, n: int, size: int, rangeOf: int -> Range)
    requires n > 0 && size > 0 && Uniform(rangeOf, n, size)
    requires 0 <= target < n * size
    ensures Guess(target, Range(0, n), Range(0, n * size)) == target / size
    ensures FirstGuessHits(target, Range(0, n), Range(0, n * size), rangeOf)
  {
    var g := Guess(target, Range(0, n), Range(0, n * size));
    DivCancel(target, n, size);
    assert g == target / size;
    var q := target / size;
    assert q * size <= target < (q + 1) * size by {
      assert target == q * size + target % size;
    }
    assert 0 <= q < n;
    assert rangeOf(q) == Range(q * size, (q + 1) * size);
    assert (q + 1) * size <= n * size by {
      MulMono(q + 1, n, size);
    }
  }
}
