/** The first-fit search for a run of clear bits. Its loops are written out three times in the kernel:
    in pfa_request_pages, pfa_request_mpages and kmalloc. */
module RunSearch {
  import opened Words
  import opened Bitmaps

  /** What the inner loop checks of a start: it stops at the end of the bitmap, whatever n asks for. */
  ghost predicate Fits(cells: seq<bool>, limit: nat, n: nat, start: nat)
    requires limit <= |cells|
  {
    forall j :: start <= j < start + n && j < limit ==> !cells[j]
  }

  /** What a caller wants: n clear bits, all of them in the bitmap. */
  ghost predicate FullRun(cells: seq<bool>, limit: nat, n: nat, start: nat)
    requires limit <= |cells|
  {
    start < limit && start + n <= limit && Fits(cells, limit, n, start)
  }

  ghost predicate HasFullRun(cells: seq<bool>, limit: nat, n: nat)
    requires limit <= |cells|
  {
    exists start :: FullRun(cells, limit, n, start)
  }

  /** The naive scan: try every start in turn. */
  ghost function FirstFit(cells: seq<bool>, limit: nat, n: nat, start: nat): (r: Option<nat>)
    requires limit <= |cells|
    ensures r.Some? ==> start <= r.value < limit
    decreases limit - start
  {
    if start >= limit then None
    else if Fits(cells, limit, n, start) then Some(start)
    else FirstFit(cells, limit, n, start + 1)
  }

  /** The naive scan finds the least start that passes the inner loop's test. */
  lemma {:induction false} FirstFitIsLeast(cells: seq<bool>, limit: nat, n: nat, start: nat)
    requires limit <= |cells|
    ensures match FirstFit(cells, limit, n, start)
            case None => forall i :: start <= i < limit ==> !Fits(cells, limit, n, i)
            case Some(r) => && start <= r < limit && Fits(cells, limit, n, r)
                            && forall i :: start <= i < r ==> !Fits(cells, limit, n, i)
    decreases limit - start
  {
    if start < limit && !Fits(cells, limit, n, start) {
      FirstFitIsLeast(cells, limit, n, start + 1);
    }
  }

  /** A set bit rules out every start up to it from which the inner loop would reach it. */
  lemma {:induction false} SkipPastSetBit(cells: seq<bool>, limit: nat, n: nat, start: nat, at: nat)
    requires start <= at < limit <= |cells| && at < start + n && cells[at]
    ensures FirstFit(cells, limit, n, start) == FirstFit(cells, limit, n, at + 1)
    decreases at - start
  {
    assert !Fits(cells, limit, n, start);
    if start < at {
      SkipPastSetBit(cells, limit, n, start + 1, at);
    }
  }

  /** The answer is 0 exactly when the first n bits are clear, as far as there are that many. */
  lemma ZeroExactlyWhen(cells: seq<bool>, limit: nat, n: nat)
    requires 0 < limit <= |cells|
    ensures FirstFit(cells, limit, n, 0) == Some(0) <==> forall j :: 0 <= j < n && j < limit ==> !cells[j]
  {
    FirstFitIsLeast(cells, limit, n, 0);
    assert Fits(cells, limit, n, 0) <==> forall j :: 0 <= j < n && j < limit ==> !cells[j];
  }

  /** When some full run exists, the search returns the lowest one, in bounds. */
  lemma LowestFullRun(cells: seq<bool>, limit: nat, n: nat)
    requires limit <= |cells|
    requires HasFullRun(cells, limit, n)
    ensures var r := FirstFit(cells, limit, n, 0);
      && r.Some? && FullRun(cells, limit, n, r.value)
      && forall i :: FullRun(cells, limit, n, i) ==> r.value <= i
  {
    FirstFitIsLeast(cells, limit, n, 0);
  }

  /** The search fails exactly when there is no full run and the last bit is set: a clear last bit is
      a tail that the inner loop accepts for any n. */
  lemma FailsExactlyWhen(cells: seq<bool>, limit: nat, n: nat)
    requires 0 < limit <= |cells| && n >= 1
    ensures FirstFit(cells, limit, n, 0).None? <==> !HasFullRun(cells, limit, n) && cells[limit - 1]
  {
    FirstFitIsLeast(cells, limit, n, 0);
    if cells[limit - 1] {
      forall i | 0 <= i < limit && Fits(cells, limit, n, i)
        ensures FullRun(cells, limit, n, i)
      {
      }
    } else {
      assert Fits(cells, limit, n, limit - 1);
    }
  }

  /** The accepted start is a truncated tail exactly when no full run exists. */
  lemma TruncatedExactlyWhen(cells: seq<bool>, limit: nat, n: nat)
    requires limit <= |cells|
    requires FirstFit(cells, limit, n, 0).Some?
    ensures FirstFit(cells, limit, n, 0).value + n > limit <==> !HasFullRun(cells, limit, n)
  {
    FirstFitIsLeast(cells, limit, n, 0);
    if HasFullRun(cells, limit, n) {
      LowestFullRun(cells, limit, n);
    } else {
      assert !FullRun(cells, limit, n, FirstFit(cells, limit, n, 0).value);
    }
  }

  /** Two bits asked for, one free at the end: the search accepts it. */
  lemma TruncatedRun()
    ensures FirstFit([true, false], 2, 2, 0) == Some(1)
  {
    assert [true, false][0];
    assert !Fits([true, false], 2, 2, 0) && Fits([true, false], 2, 2, 1);
  }

  /** A record of bit reads in which every index is higher than those before it, and below bound. */
  ghost predicate Ascending(seen: seq<nat>, bound: nat) {
    seen == [] || (seen[|seen| - 1] < bound && Ascending(seen[..|seen| - 1], seen[|seen| - 1]))
  }

  /** No index is read twice, so there are at most bound reads. */
  lemma {:induction false} AtMostOnceEach(seen: seq<nat>, bound: nat)
    requires Ascending(seen, bound)
    ensures |seen| <= bound
    ensures forall i, j :: 0 <= i < j < |seen| ==> seen[i] < seen[j] < bound
    ensures forall i :: 0 <= i < |seen| ==> seen[i] < bound
  {
    if seen != [] {
      AtMostOnceEach(seen[..|seen| - 1], seen[|seen| - 1]);
    }
  }

  lemma FewReads(seen: seq<nat>, bound: nat)
    requires Ascending(seen, bound)
    ensures |seen| <= bound
  {
    AtMostOnceEach(seen, bound);
  }

  lemma AscendingExtends(seen: seq<nat>, bound: nat, next: nat)
    requires Ascending(seen, bound) && bound <= next
    ensures Ascending(seen + [next], next + 1) && Ascending(seen, next)
  {
    assert (seen + [next])[..|seen|] == seen;
  }

  /** The nested search with its skip: the same answer as the naive scan, and the indices passed to
      bitmap_get only ever go up, so each bit is read at most once. */
  method FindRun(bitmap: Bitmap, n: u32) returns (result: Option<u32>, ghost seen: seq<nat>)
    requires 8 * bitmap.size < 0x1_0000_0000
    requires bitmap.buffer + bitmap.size <= bitmap.mem.Length
    ensures result == FirstFit(bitmap.Cells(), 8 * bitmap.size, n, 0)
    ensures Ascending(seen, 8 * bitmap.size) && |seen| <= 8 * bitmap.size
  {
    ghost var cells := bitmap.Cells();
    ghost var limit := 8 * bitmap.size;
    ghost var answer := FirstFit(cells, limit, n, 0);
    seen := [];
    var index: u32 := 0;
    while index < bitmap.size * 8
      invariant index <= limit
      invariant answer == FirstFit(cells, limit, n, index)
      invariant Ascending(seen, index)
    {
      var broken := false;
      var offset: u32 := 0;
      while offset < n && offset + index < bitmap.size * 8
        invariant offset <= n && index + offset <= limit
        invariant forall j :: index <= j < index + offset ==> !cells[j]
        invariant Ascending(seen, index + offset)
      {
        ghost var at: nat := index + offset;
        var locked := bitmap.Get(index + offset);
        AscendingExtends(seen, at, at);
        seen := seen + [at];
        if locked {
          broken := true;
          SkipPastSetBit(cells, limit, n, index, at);
          index := index + offset;
          break;
        }
        offset := offset + 1;
      }
      if broken {
        index := index + 1;
        continue;
      }
      FewReads(seen, limit);
      return Some(index), seen;
    }
    FewReads(seen, limit);
    return None, seen;
  }
}
