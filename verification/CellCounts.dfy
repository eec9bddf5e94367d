/** Counting the set bits of a bitmap, and setting or clearing a whole range of them. */
module CellCounts {
  import opened Bitmaps

  ghost function Count(cells: seq<bool>): nat {
    if cells == [] then 0 else Count(cells[..|cells| - 1]) + if cells[|cells| - 1] then 1 else 0
  }

  lemma {:induction false} CountUpdate(cells: seq<bool>, index: nat, value: bool)
    requires index < |cells|
    ensures Count(cells[index := value])
         == Count(cells) + (if value then 1 else 0) - (if cells[index] then 1 else 0)
  {
    var last := |cells| - 1;
    var now := cells[index := value];
    if index == last {
      assert now[..last] == cells[..last];
    } else {
      assert now[..last] == cells[..last][index := value];
      CountUpdate(cells[..last], index, value);
    }
  }

  lemma {:induction false} CountConcat(a: seq<bool>, b: seq<bool>)
    ensures Count(a + b) == Count(a) + Count(b)
  {
    if b == [] {
      assert a + b == a;
    } else {
      assert (a + b)[..|a + b| - 1] == a + b[..|b| - 1];
      CountConcat(a, b[..|b| - 1]);
    }
  }

  lemma {:induction false} CountClear(n: nat)
    ensures Count(AllClear(n)) == 0
  {
    if n > 0 {
      assert AllClear(n)[..n - 1] == AllClear(n - 1);
      CountClear(n - 1);
    }
  }

  /** The cells with [from, from + n) set to value. */
  ghost function WithRange(cells: seq<bool>, from: nat, n: nat, value: bool): (result: seq<bool>)
    ensures |result| == |cells|
  {
    seq(|cells|, i requires 0 <= i < |cells| => if from <= i < from + n then value else cells[i])
  }

  lemma RangeGrows(cells: seq<bool>, from: nat, n: nat, value: bool)
    requires from + n < |cells|
    ensures WithRange(cells, from, n + 1, value) == WithRange(cells, from, n, value)[from + n := value]
  {
  }

  /** Flipping a range that is all clear (or all set) moves the count by its length. */
  lemma {:induction false} CountRange(cells: seq<bool>, from: nat, n: nat, value: bool)
    requires from + n <= |cells|
    requires forall i :: from <= i < from + n ==> cells[i] != value
    ensures value ==> Count(WithRange(cells, from, n, true)) == Count(cells) + n
    ensures !value ==> Count(WithRange(cells, from, n, false)) == Count(cells) - n
  {
    if n == 0 {
      assert WithRange(cells, from, 0, value) == cells;
    } else {
      CountRange(cells, from, n - 1, value);
      RangeGrows(cells, from, n - 1, value);
      CountUpdate(WithRange(cells, from, n - 1, value), from + n - 1, value);
    }
  }

  lemma {:induction false} CountBounded(cells: seq<bool>)
    ensures Count(cells) <= |cells|
  {
    if cells != [] {
      CountBounded(cells[..|cells| - 1]);
    }
  }
}
