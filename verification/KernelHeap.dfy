/** kernel/kernel/kheap.c: block-granular allocation over a bitmap that lies just before the chunk. */
module KernelHeap {
  import opened Words
  import opened Bytes
  import opened Bitmaps
  import opened PhysicalMemory
  import opened CellCounts
  import opened RunSearch

  /** sizeof(kheap_t) on i386. */
  const HEADER_BYTES: u32 := 28

  /** KHEAP_BITMAP_SIZE: a ceiling division whose sum is 32 bits wide. */
  function BlockCount(size: u32, granularity: u32): u32
    requires granularity > 0
  {
    Wrap(size + granularity - 1) / granularity
  }

  /** The blocks cover the bytes asked for exactly when the sum does not wrap around. */
  lemma BlocksCoverExactlyWhen(size: u32, granularity: u32)
    requires 0 < granularity < 0x1_0000
    ensures BlockCount(size, granularity) * granularity >= size <==> size + granularity - 1 < 0x1_0000_0000
  {
    var sum := Wrap(size + granularity - 1);
    DivMod(sum, granularity);
  }

  /** No more blocks than the size needs, and none for no bytes. */
  ghost predicate Tight(size: u32, granularity: u32, blocks: nat) {
    if size == 0 then blocks == 0 else (blocks - 1) * granularity < size <= blocks * granularity
  }

  /** The blocks are as few as can cover the size exactly when the sum does not wrap around. */
  lemma BlocksTightExactlyWhen(size: u32, granularity: u32)
    requires 0 < granularity < 0x1_0000
    ensures Tight(size, granularity, BlockCount(size, granularity)) <==> size + granularity - 1 < 0x1_0000_0000
  {
    var n := BlockCount(size, granularity);
    BlocksCoverExactlyWhen(size, granularity);
    if size + granularity - 1 < 0x1_0000_0000 {
      WrapSmall(size + granularity - 1);
      DivMod(size + granularity - 1, granularity);
      Distribute(n, -1, granularity);
      if size == 0 {
        SmallMultiple(n, granularity);
      }
    }
  }

  /** kfree rounds toward zero, also for a pointer before the chunk. */
  lemma TruncatedMeaning(x: int, d: nat)
    requires d > 0
    ensures var q := Truncated(x, d);
      if x >= 0 then q * d <= x < q * d + d else q * d - d < x <= q * d
  {
    if x >= 0 {
      DivMod(x, d);
    } else {
      DivMod(-x, d);
      assert -(-x / d) * d == -(-x / d * d);
    }
  }

  /** The heap that kernel_main makes: half a megabyte in blocks of 4 bytes. */
  lemma KernelsOwnHeap()
    ensures BlockCount(0x8_0000, 4) == 0x2_0000 && BlocksFit(0x8_0000, 4)
    ensures HEADER_BYTES + BlockCount(0x8_0000, 4) / 8 + 0x8_0000 == 540700
  {
  }

  lemma DivMod(x: nat, d: nat)
    requires d > 0
    ensures x / d * d <= x < x / d * d + d
  {
  }

  /** C's int division truncates toward zero. */
  function Truncated(x: int, d: int): int
    requires d > 0
  {
    if x >= 0 then x / d else -(-x / d)
  }

  /** The index that kfree computes: a signed difference of the pointers, divided. */
  function FreeIndex(pointer: u32, start: u32, granularity: u32): int
    requires granularity > 0
  {
    Truncated(Signed(Wrap(pointer - start)), granularity)
  }

  /** kfree finds the index back exactly when the block starts less than 2 GiB into the chunk. */
  lemma FreeIndexExactlyWhen(start: u32, index: nat, granularity: u32)
    requires granularity > 0 && start + index * granularity < 0x1_0000_0000
    ensures FreeIndex(start + index * granularity, start, granularity) == index
        <==> index * granularity < 0x8000_0000
  {
    var offset := index * granularity;
    assert Wrap(start + offset - start) == offset;
    if offset < 0x8000_0000 {
      DivOfProduct(index, granularity);
    } else {
      NegativeQuotient(Signed(offset), granularity);
    }
  }

  /** A block 2 GiB into the chunk: kfree computes a negative index. */
  lemma FarBlockNotFound()
    ensures FreeIndex(0x9000_0000, 0x1000_0000, 4) == -0x2000_0000
  {
  }

  /** A size near 2^32 gets no block at all. */
  lemma HugeSizeGetsNoBlock()
    ensures BlockCount(0xFFFF_FFFF, 4) == 0
  {
  }

  lemma DivOfProduct(q: nat, d: nat)
    requires d > 0
    ensures q * d / d == q
  {
    DivMod(q * d, d);
    var r := q * d / d;
    assert (q - r) * d == q * d - r * d;
    SmallMultiple(q - r, d);
  }

  lemma SmallMultiple(x: int, d: nat)
    requires 0 <= x * d < d
    ensures x == 0
  {
  }

  lemma NegativeQuotient(x: int, d: nat)
    requires x < 0 && d > 0
    ensures Truncated(x, d) <= 0
  {
    DivMod(-x, d);
  }

  // ----- Runs of allocations and releases -----

  datatype Block = Block(index: nat, size: u32)

  /** The bitmap, the used counter, and the blocks handed out and not yet freed. */
  datatype World = World(cells: seq<bool>, used: u32, live: seq<Block>)

  ghost predicate Covers(b: Block, granularity: u32, cell: int)
    requires granularity > 0
  {
    b.index <= cell < b.index + BlockCount(b.size, granularity)
  }

  datatype Action = Allocate(size: u32) | Release(k: nat)

  /** A full run exists at each allocation, and frees match live allocations. */
  ghost predicate Allowed(w: World, granularity: u32, action: Action)
    requires granularity > 0
  {
    match action
    case Allocate(size) => HasFullRun(w.cells, |w.cells|, BlockCount(size, granularity))
    case Release(k) => k < |w.live|
  }

  ghost function Act(w: World, granularity: u32, action: Action): (v: World)
    requires granularity > 0 && Allowed(w, granularity, action)
    ensures |v.cells| == |w.cells|
  {
    match action
    case Allocate(size) =>
      var n := BlockCount(size, granularity);
      LowestFullRun(w.cells, |w.cells|, n);
      var index := FirstFit(w.cells, |w.cells|, n, 0).value;
      World(WithRange(w.cells, index, n, true), Wrap(w.used + size), w.live + [Block(index, size)])
    case Release(k) =>
      var b := w.live[k];
      World(WithRange(w.cells, b.index, BlockCount(b.size, granularity), false), Wrap(w.used - b.size),
            w.live[..k] + w.live[k + 1..])
  }

  ghost predicate AllAllowed(w: World, granularity: u32, actions: seq<Action>)
    requires granularity > 0
    decreases |actions|
  {
    actions == [] ||
    (Allowed(w, granularity, actions[0]) && AllAllowed(Act(w, granularity, actions[0]), granularity, actions[1..]))
  }

  ghost function ActAll(w: World, granularity: u32, actions: seq<Action>): World
    requires granularity > 0 && AllAllowed(w, granularity, actions)
    decreases |actions|
  {
    if actions == [] then w else ActAll(Act(w, granularity, actions[0]), granularity, actions[1..])
  }

  ghost function SumSizes(live: seq<Block>): nat {
    if live == [] then 0 else live[0].size + SumSizes(live[1..])
  }

  ghost function SumBlocks(live: seq<Block>, granularity: u32): nat
    requires granularity > 0
  {
    if live == [] then 0 else BlockCount(live[0].size, granularity) + SumBlocks(live[1..], granularity)
  }

  lemma {:induction false} SumsAppend(a: seq<Block>, b: seq<Block>, granularity: u32)
    requires granularity > 0
    ensures SumSizes(a + b) == SumSizes(a) + SumSizes(b)
    ensures SumBlocks(a + b, granularity) == SumBlocks(a, granularity) + SumBlocks(b, granularity)
  {
    if a == [] {
      assert a + b == b;
    } else {
      assert (a + b)[1..] == a[1..] + b;
      SumsAppend(a[1..], b, granularity);
    }
  }

  lemma SumsRemove(live: seq<Block>, k: nat, granularity: u32)
    requires granularity > 0 && k < |live|
    ensures var rest := live[..k] + live[k + 1..];
      && SumSizes(live) == SumSizes(rest) + live[k].size
      && SumBlocks(live, granularity) == SumBlocks(rest, granularity) + BlockCount(live[k].size, granularity)
  {
    assert live == live[..k] + live[k..] && live[k..][1..] == live[k + 1..];
    SumsAppend(live[..k], live[k..], granularity);
    SumsAppend(live[..k], live[k + 1..], granularity);
  }

  /** The bitmap is exactly the live blocks: in bounds, disjoint, a bit set iff some block covers it; the
      counters are exactly their sums. */
  ghost predicate Exact(w: World, granularity: u32)
    requires granularity > 0
  {
    Recorded(w, granularity) && Counted(w, granularity)
  }

  ghost predicate Recorded(w: World, granularity: u32)
    requires granularity > 0
  {
    && (forall i :: 0 <= i < |w.live| ==> InBounds(w.live[i], granularity, |w.cells|))
    && (forall i, j, cell :: 0 <= i < j < |w.live| && Covers(w.live[i], granularity, cell) ==>
          !Covers(w.live[j], granularity, cell))
    && (forall cell :: 0 <= cell < |w.cells| ==> (w.cells[cell] <==> Covered(w.live, granularity, cell)))
  }

  ghost predicate Counted(w: World, granularity: u32)
    requires granularity > 0
  {
    && w.used == Wrap(SumSizes(w.live))
    && Count(w.cells) == SumBlocks(w.live, granularity)
  }

  ghost predicate InBounds(b: Block, granularity: u32, limit: nat)
    requires granularity > 0
  {
    b.index < limit && b.index + BlockCount(b.size, granularity) <= limit
  }

  ghost predicate Covered(live: seq<Block>, granularity: u32, cell: int)
    requires granularity > 0
  {
    exists i :: 0 <= i < |live| && Covers(live[i], granularity, cell)
  }

  lemma AllocateKeepsRecord(w: World, granularity: u32, size: u32)
    requires granularity > 0 && Recorded(w, granularity) && Allowed(w, granularity, Allocate(size))
    ensures Recorded(Act(w, granularity, Allocate(size)), granularity)
  {
    var n := BlockCount(size, granularity);
    LowestFullRun(w.cells, |w.cells|, n);
    var b := Block(FirstFit(w.cells, |w.cells|, n, 0).value, size);
    var v := Act(w, granularity, Allocate(size));
    forall cell | 0 <= cell < |w.cells|
      ensures v.cells[cell] <==> Covered(v.live, granularity, cell)
    {
      CoveredByOneMore(w.live, b, granularity, cell);
    }
    forall i, cell | 0 <= i < |w.live| && Covers(w.live[i], granularity, cell)
      ensures !Covers(b, granularity, cell)
    {
      LiveIsSet(w, granularity, i, cell);
    }
  }

  lemma AllocateKeepsCounts(w: World, granularity: u32, size: u32)
    requires granularity > 0 && Counted(w, granularity) && Allowed(w, granularity, Allocate(size))
    ensures Counted(Act(w, granularity, Allocate(size)), granularity)
  {
    var n := BlockCount(size, granularity);
    LowestFullRun(w.cells, |w.cells|, n);
    var b := Block(FirstFit(w.cells, |w.cells|, n, 0).value, size);
    CountRange(w.cells, b.index, n, true);
    SumsAppend(w.live, [b], granularity);
    WrapAdd(SumSizes(w.live), size);
  }

  lemma LiveIsSet(w: World, granularity: u32, i: nat, cell: int)
    requires granularity > 0 && Recorded(w, granularity)
    requires i < |w.live| && Covers(w.live[i], granularity, cell)
    ensures 0 <= cell < |w.cells| && w.cells[cell]
  {
    assert InBounds(w.live[i], granularity, |w.cells|);
    assert Covered(w.live, granularity, cell);
  }

  lemma CoveredByOneMore(live: seq<Block>, b: Block, granularity: u32, cell: nat)
    requires granularity > 0
    ensures Covered(live + [b], granularity, cell) <==> Covered(live, granularity, cell) || Covers(b, granularity, cell)
  {
    if Covered(live, granularity, cell) {
      var i :| 0 <= i < |live| && Covers(live[i], granularity, cell);
      assert (live + [b])[i] == live[i];
    }
    assert (live + [b])[|live|] == b;
  }

  lemma ReleaseKeepsRecord(w: World, granularity: u32, k: nat)
    requires granularity > 0 && Recorded(w, granularity) && k < |w.live|
    ensures Recorded(Act(w, granularity, Release(k)), granularity)
  {
    var v := Act(w, granularity, Release(k));
    forall cell | 0 <= cell < |w.cells|
      ensures v.cells[cell] <==> Covered(v.live, granularity, cell)
    {
      CoveredByOthers(w, granularity, k, cell);
    }
    forall i | 0 <= i < |v.live|
      ensures v.live[i] == w.live[if i < k then i else i + 1]
    {
    }
  }

  lemma ReleaseKeepsCounts(w: World, granularity: u32, k: nat)
    requires granularity > 0 && Exact(w, granularity) && k < |w.live|
    ensures Counted(Act(w, granularity, Release(k)), granularity)
  {
    var b := w.live[k];
    SumsRemove(w.live, k, granularity);
    WrapAdd(SumSizes(w.live), -(b.size as int));
    LiveBitsCleared(w, granularity, k, b.index, BlockCount(b.size, granularity));
  }

  lemma LiveBitsCleared(w: World, granularity: u32, k: nat, index: nat, n: nat)
    requires granularity > 0 && Exact(w, granularity) && k < |w.live|
    requires index == w.live[k].index && n == BlockCount(w.live[k].size, granularity)
    ensures index + n <= |w.cells| && Count(WithRange(w.cells, index, n, false)) == Count(w.cells) - n
  {
    forall cell | index <= cell < index + n
      ensures cell < |w.cells| && w.cells[cell]
    {
      LiveIsSet(w, granularity, k, cell);
    }
    assert InBounds(w.live[k], granularity, |w.cells|);
    CountRange(w.cells, index, n, false);
  }

  lemma CoveredByOthers(w: World, granularity: u32, k: nat, cell: nat)
    requires granularity > 0 && Recorded(w, granularity) && k < |w.live|
    ensures Covered(w.live[..k] + w.live[k + 1..], granularity, cell)
        <==> Covered(w.live, granularity, cell) && !Covers(w.live[k], granularity, cell)
  {
    var rest := w.live[..k] + w.live[k + 1..];
    if Covered(w.live, granularity, cell) && !Covers(w.live[k], granularity, cell) {
      var i :| 0 <= i < |w.live| && Covers(w.live[i], granularity, cell);
      assert rest[if i < k then i else i - 1] == w.live[i];
    }
    if Covered(rest, granularity, cell) {
      var i :| 0 <= i < |rest| && Covers(rest[i], granularity, cell);
      assert rest[i] == w.live[if i < k then i else i + 1];
    }
  }

  /** Over every run, the bitmap and the counter stay an exact record of the live blocks. */
  lemma {:induction false} HeapStaysExact(w: World, granularity: u32, actions: seq<Action>)
    requires granularity > 0 && Exact(w, granularity) && AllAllowed(w, granularity, actions)
    ensures Exact(ActAll(w, granularity, actions), granularity)
    decreases |actions|
  {
    if actions != [] {
      match actions[0] {
        case Allocate(size) =>
          AllocateKeepsRecord(w, granularity, size);
          AllocateKeepsCounts(w, granularity, size);
        case Release(k) =>
          ReleaseKeepsRecord(w, granularity, k);
          ReleaseKeepsCounts(w, granularity, k);
      }
      HeapStaysExact(Act(w, granularity, actions[0]), granularity, actions[1..]);
    }
  }

  /** Freeing a block just allocated restores the bitmap exactly when the block was free. */
  lemma UndoExactlyWhen(cells: seq<bool>, from: nat, n: nat)
    requires from + n <= |cells|
    ensures WithRange(WithRange(cells, from, n, true), from, n, false) == cells
        <==> forall i :: from <= i < from + n ==> !cells[i]
  {
    var undone := WithRange(WithRange(cells, from, n, true), from, n, false);
    if i :| from <= i < from + n && cells[i] {
      assert undone[i] != cells[i];
    }
  }

  /** While a full run exists, allocating and releasing restores bitmap, counter and live blocks. */
  lemma AllocationUndone(w: World, granularity: u32, size: u32)
    requires granularity > 0 && Allowed(w, granularity, Allocate(size))
    ensures Act(Act(w, granularity, Allocate(size)), granularity, Release(|w.live|)) == w
  {
    var n := BlockCount(size, granularity);
    LowestFullRun(w.cells, |w.cells|, n);
    var b := Block(FirstFit(w.cells, |w.cells|, n, 0).value, size);
    UndoExactlyWhen(w.cells, b.index, n);
    CounterUndone(w.used, size);
    assert (w.live + [b])[..|w.live|] + (w.live + [b])[|w.live| + 1..] == w.live;
  }

  lemma CounterUndone(used: u32, size: u32)
    ensures Wrap(Wrap(used + size) - size) == used
  {
  }

  // ----- Bytes -----

  /** The bitmap that kheap_add makes never has more bits than the chunk has blocks, and every block that
      has a bit starts inside the chunk. */
  lemma BlocksStartInChunk(memorySize: u32, granularity: u32, index: nat)
    requires 0 < granularity < 0x1_0000
    requires index < 8 * (BlockCount(memorySize, granularity) / 8)
    ensures index * granularity < memorySize
  {
    var count := BlockCount(memorySize, granularity);
    DivMod(Wrap(memorySize + granularity - 1), granularity);
    MulLe(index + 1, count, granularity);
    Distribute(index, 1, granularity);
  }

  /** The blocks that have bits lie in the chunk to their end exactly when the granularity divides the chunk, or the
      last few blocks get no bits, or the size wraps around (and there are no blocks at all). */
  ghost predicate BlocksFit(memorySize: u32, granularity: u32)
    requires granularity > 0
  {
    || memorySize % granularity == 0
    || BlockCount(memorySize, granularity) % 8 != 0
    || memorySize + granularity - 1 >= 0x1_0000_0000
  }

  lemma BlocksEndInChunkExactlyWhen(memorySize: u32, granularity: u32)
    requires 0 < granularity < 0x1_0000
    ensures 8 * (BlockCount(memorySize, granularity) / 8) * granularity <= memorySize
        <==> BlocksFit(memorySize, granularity)
  {
    var count := BlockCount(memorySize, granularity);
    var sum := Wrap(memorySize + granularity - 1);
    DivMod(sum, granularity);
    if memorySize + granularity - 1 >= 0x1_0000_0000 {
      SmallMultiple(count, granularity);
    } else if count % 8 != 0 {
      MulLe(8 * (count / 8) + 1, count, granularity);
      Distribute(8 * (count / 8), 1, granularity);
    } else {
      assert 8 * (count / 8) == count;
      CeilingIsExact(memorySize, granularity, count);
    }
  }

  /** A ceiling division is exact exactly when there is no remainder. */
  lemma CeilingIsExact(m: nat, d: nat, count: nat)
    requires d > 0 && count * d <= m + d - 1 < count * d + d
    ensures count * d <= m <==> m % d == 0
  {
    if m % d == 0 {
      ExactDivision(m, d);
      if count > m / d {
        MulLe(m / d + 1, count, d);
        Distribute(m / d, 1, d);
      }
    } else if count * d <= m {
      MultipleHasNoRemainder(count, d);
    }
  }

  lemma MultipleHasNoRemainder(q: nat, d: nat)
    requires d > 0
    ensures q * d % d == 0
  {
    DivOfProduct(q, d);
  }

  /** 31 bytes in blocks of 4: the eighth block ends a byte behind the chunk. */
  lemma LastBlockOutside()
    ensures 8 * (BlockCount(31, 4) / 8) * 4 == 32 > 31
  {
  }

  lemma ExactDivision(x: nat, d: nat)
    requires d > 0 && x % d == 0
    ensures x / d * d == x
  {
  }

  lemma Distribute(x: int, y: int, d: int)
    ensures (x + y) * d == x * d + y * d
  {
  }

  ghost predicate Unwrapped(b: Block, granularity: u32) {
    b.size + granularity - 1 < 0x1_0000_0000
  }

  /** Live blocks own byte ranges below the end of the last block, and no byte belongs to two of them. */
  lemma LiveBytesSeparate(w: World, granularity: u32, i: nat, j: nat)
    requires 0 < granularity < 0x1_0000 && Exact(w, granularity)
    requires i < j < |w.live| && Unwrapped(w.live[i], granularity) && Unwrapped(w.live[j], granularity)
    ensures BytesApart(w.live[i], w.live[j], granularity)
  {
    var a, b := w.live[i], w.live[j];
    EndOfBlock(a, granularity);
    EndOfBlock(b, granularity);
    if a.size > 0 && b.size > 0 {
      assert Covers(a, granularity, a.index) && Covers(b, granularity, b.index);
      if a.index <= b.index {
        MulLe(a.index + BlockCount(a.size, granularity), b.index, granularity);
      } else {
        MulLe(b.index + BlockCount(b.size, granularity), a.index, granularity);
      }
    }
  }

  ghost predicate BytesApart(a: Block, b: Block, granularity: u32) {
    a.size > 0 && b.size > 0 ==>
      LastByte(a, granularity) <= b.index * granularity || LastByte(b, granularity) <= a.index * granularity
  }

  lemma LiveBytesEnd(w: World, granularity: u32, i: nat)
    requires 0 < granularity < 0x1_0000 && Exact(w, granularity) && i < |w.live| && Unwrapped(w.live[i], granularity)
    ensures LastByte(w.live[i], granularity) <= |w.cells| * granularity
  {
    var b := w.live[i];
    EndOfBlock(b, granularity);
    assert InBounds(b, granularity, |w.cells|);
    MulLe(b.index + BlockCount(b.size, granularity), |w.cells|, granularity);
  }

  /** One past the last byte of a block, as an offset into the chunk. */
  ghost function LastByte(b: Block, granularity: u32): nat {
    b.index * granularity + b.size
  }

  lemma EndOfBlock(b: Block, granularity: u32)
    requires 0 < granularity < 0x1_0000 && Unwrapped(b, granularity)
    ensures LastByte(b, granularity) <= (b.index + BlockCount(b.size, granularity)) * granularity
    ensures b.size > 0 ==> BlockCount(b.size, granularity) > 0
  {
    BlocksCoverExactlyWhen(b.size, granularity);
    Distribute(b.index, BlockCount(b.size, granularity), granularity);
  }

  /** When no size wraps around, the used counter is the sum of the live sizes itself, not just modulo
      2^32. */
  lemma UsedIsExact(w: World, granularity: u32)
    requires 0 < granularity < 0x1_0000 && Exact(w, granularity) && |w.cells| * granularity < 0x1_0000_0000
    requires forall b :: b in w.live ==> Unwrapped(b, granularity)
    ensures w.used == SumSizes(w.live) <= |w.cells| * granularity
  {
    SumsBounded(w.live, granularity);
    CountBounded(w.cells);
    MulLe(SumBlocks(w.live, granularity), |w.cells|, granularity);
  }

  lemma {:induction false} SumsBounded(live: seq<Block>, granularity: u32)
    requires 0 < granularity < 0x1_0000
    requires forall b :: b in live ==> Unwrapped(b, granularity)
    ensures SumSizes(live) <= SumBlocks(live, granularity) * granularity
  {
    if live != [] {
      SumsBounded(live[1..], granularity);
      assert live[0] in live;
      BlocksCoverExactlyWhen(live[0].size, granularity);
      Distribute(BlockCount(live[0].size, granularity), SumBlocks(live[1..], granularity), granularity);
    }
  }

  /** A live block takes up less than one block more than it asked for. */
  lemma {:induction false} LittleWasted(live: seq<Block>, granularity: u32)
    requires 0 < granularity < 0x1_0000
    requires forall b :: b in live ==> Unwrapped(b, granularity)
    ensures SumBlocks(live, granularity) * granularity <= SumSizes(live) + |live| * (granularity - 1)
  {
    if live != [] {
      var n, m := BlockCount(live[0].size, granularity), SumBlocks(live[1..], granularity);
      LittleWasted(live[1..], granularity);
      assert live[0] in live;
      BlocksTightExactlyWhen(live[0].size, granularity);
      Distribute(n, -1, granularity);
      Distribute(n, m, granularity);
      Distribute(1, |live[1..]|, granularity - 1);
    }
  }

  // ----- The heap from kheap_add on -----

  /** What kheap_add leaves. */
  ghost function Fresh(memorySize: u32, granularity: u32): World
    requires granularity > 0
  {
    World(AllClear(8 * (BlockCount(memorySize, granularity) / 8)), 0, [])
  }

  lemma FreshIsExact(memorySize: u32, granularity: u32)
    requires granularity > 0
    ensures Exact(Fresh(memorySize, granularity), granularity)
  {
    CountClear(8 * (BlockCount(memorySize, granularity) / 8));
  }

  ghost predicate SizesUnwrapped(actions: seq<Action>, granularity: u32) {
    forall a :: a in actions && a.Allocate? ==> a.size + granularity - 1 < 0x1_0000_0000
  }

  ghost predicate LiveUnwrapped(w: World, granularity: u32) {
    forall b :: b in w.live ==> Unwrapped(b, granularity)
  }

  lemma {:induction false} LiveStaysUnwrapped(w: World, granularity: u32, actions: seq<Action>)
    requires granularity > 0 && AllAllowed(w, granularity, actions)
    requires LiveUnwrapped(w, granularity) && SizesUnwrapped(actions, granularity)
    ensures LiveUnwrapped(ActAll(w, granularity, actions), granularity)
    ensures |ActAll(w, granularity, actions).cells| == |w.cells|
    decreases |actions|
  {
    if actions != [] {
      assert actions[0] in actions;
      LiveStaysUnwrapped(Act(w, granularity, actions[0]), granularity, actions[1..]);
    }
  }

  /** What holds of a heap whose sizes do not wrap around. */
  ghost predicate Sound(w: World, granularity: u32, end: nat)
    requires granularity > 0
  {
    && Exact(w, granularity)
    && w.used == SumSizes(w.live) <= end
    && (forall b :: b in w.live ==> Tight(b.size, granularity, BlockCount(b.size, granularity)))
    && Count(w.cells) * granularity <= w.used + |w.live| * (granularity - 1)
    && (forall i :: 0 <= i < |w.live| ==> LastByte(w.live[i], granularity) <= end)
    && (forall i, j :: 0 <= i < j < |w.live| ==> BytesApart(w.live[i], w.live[j], granularity))
  }

  lemma ExactIsSound(w: World, granularity: u32)
    requires 0 < granularity < 0x1_0000 && Exact(w, granularity) && LiveUnwrapped(w, granularity)
    requires |w.cells| * granularity < 0x1_0000_0000
    ensures Sound(w, granularity, |w.cells| * granularity)
  {
    UsedIsExact(w, granularity);
    LittleWasted(w.live, granularity);
    forall b | b in w.live
      ensures Tight(b.size, granularity, BlockCount(b.size, granularity))
    {
      BlocksTightExactlyWhen(b.size, granularity);
    }
    forall i | 0 <= i < |w.live|
      ensures LastByte(w.live[i], granularity) <= |w.cells| * granularity
    {
      LiveBytesEnd(w, granularity, i);
    }
    forall i, j | 0 <= i < j < |w.live|
      ensures BytesApart(w.live[i], w.live[j], granularity)
    {
      LiveBytesSeparate(w, granularity, i, j);
    }
  }

  lemma BlocksEndBelow(memorySize: u32, granularity: u32)
    requires 0 < granularity < 0x1_0000
    ensures 8 * (BlockCount(memorySize, granularity) / 8) * granularity < 0x1_0000_0000
  {
    var count := BlockCount(memorySize, granularity);
    DivMod(Wrap(memorySize + granularity - 1), granularity);
    MulLe(8 * (count / 8), count, granularity);
  }

  /** From kheap_add on, over every run of allocations that find a full run and of frees that match them: the bitmap
      is exactly the live blocks, used is exactly the sum of their sizes, the blocks that are marked hold that much and
      less than one block more for each of them, no byte belongs to two of them, and all of them end where the last
      block ends. When the blocks fit, that is inside the chunk. */
  lemma HeapIsSound(memorySize: u32, granularity: u32, actions: seq<Action>)
    requires 0 < granularity < 0x1_0000 && SizesUnwrapped(actions, granularity)
    requires AllAllowed(Fresh(memorySize, granularity), granularity, actions)
    ensures var w := ActAll(Fresh(memorySize, granularity), granularity, actions);
      && Sound(w, granularity, |w.cells| * granularity)
      && (|w.cells| * granularity <= memorySize <==> BlocksFit(memorySize, granularity))
  {
    var w := ActAll(Fresh(memorySize, granularity), granularity, actions);
    FreshIsExact(memorySize, granularity);
    HeapStaysExact(Fresh(memorySize, granularity), granularity, actions);
    LiveStaysUnwrapped(Fresh(memorySize, granularity), granularity, actions);
    BlocksEndBelow(memorySize, granularity);
    BlocksEndInChunkExactlyWhen(memorySize, granularity);
    ExactIsSound(w, granularity);
  }

  // ----- The code -----

  /** Within the bitmap, marking cells of memory is marking the bitmap's bits. */
  lemma MarkingTheBitmap(cells: seq<bool>, limit: nat, from: nat, n: nat, value: bool)
    requires limit <= |cells|
    ensures WithRange(cells, from, n, value)[..limit] == WithRange(cells[..limit], from, n, value)
  {
  }

  /** The search only looks at the bitmap's bits. */
  lemma {:induction false} SearchingTheBitmap(cells: seq<bool>, limit: nat, n: nat, start: nat)
    requires limit <= |cells|
    ensures FirstFit(cells, limit, n, start) == FirstFit(cells[..limit], limit, n, start)
    decreases limit - start
  {
    assert Fits(cells, limit, n, start) <==> Fits(cells[..limit], limit, n, start);
    if start < limit {
      SearchingTheBitmap(cells, limit, n, start + 1);
    }
  }

  /** What kmalloc does to the bits of memory is the allocation of the laws above, when it is allowed. */
  lemma MallocIsAllocate(cells: seq<bool>, limit: nat, used: u32, live: seq<Block>, granularity: u32, size: u32)
    requires limit <= |cells| && granularity > 0
    requires Allowed(World(cells[..limit], used, live), granularity, Allocate(size))
    ensures var n := BlockCount(size, granularity);
      match FirstFit(cells, limit, n, 0)
      case None => false
      case Some(index) =>
        Act(World(cells[..limit], used, live), granularity, Allocate(size))
        == World(WithRange(cells, index, n, true)[..limit], Wrap(used + size), live + [Block(index, size)])
  {
    var n := BlockCount(size, granularity);
    SearchingTheBitmap(cells, limit, n, 0);
    LowestFullRun(cells[..limit], limit, n);
    MarkingTheBitmap(cells, limit, FirstFit(cells, limit, n, 0).value, n, true);
  }

  /** What kfree does, given the pointer and the size of a live block that starts less than 2 GiB into the
      chunk, is the release of that block. */
  lemma FreeIsRelease(cells: seq<bool>, limit: nat, used: u32, live: seq<Block>, granularity: u32, start: u32, k: nat)
    requires limit <= |cells| && granularity > 0 && k < |live|
    requires start + live[k].index * granularity < 0x1_0000_0000 && live[k].index * granularity < 0x8000_0000
    ensures var b := live[k];
      var index := FreeIndex(start + b.index * granularity, start, granularity);
      && index >= 0
      && Act(World(cells[..limit], used, live), granularity, Release(k))
         == World(WithRange(cells, index, BlockCount(b.size, granularity), false)[..limit], Wrap(used - b.size),
                  live[..k] + live[k + 1..])
  {
    FreeIndexExactlyWhen(start, live[k].index, granularity);
    MarkingTheBitmap(cells, limit, live[k].index, BlockCount(live[k].size, granularity), false);
  }

  lemma ThreeSums(a: u32, b: nat, c: nat)
    ensures Wrap(Wrap(Wrap(0 + a) + b) + c) == Wrap(a + b + c)
  {
    WrapAdd(a + b, c);
  }

  /** A byte (counted from the start of the bitmap) that holds none of the bits [from, from + n). */
  ghost predicate Outside(offset: int, from: nat, n: nat) {
    8 * offset + 8 <= from || from + n <= 8 * offset
  }

  /** The bits behind the bitmap that a truncated run marks are all set. */
  ghost predicate TailSet(cells: seq<bool>, limit: nat, index: nat, n: nat) {
    forall i :: limit <= i < index + n && i < |cells| ==> cells[i]
  }

  lemma NoRunIsNotAllowed(cells: seq<bool>, limit: nat, n: nat)
    requires limit <= |cells| && FirstFit(cells, limit, n, 0).None?
    ensures !HasFullRun(cells[..limit], limit, n)
  {
    SearchingTheBitmap(cells, limit, n, 0);
    if HasFullRun(cells[..limit], limit, n) {
      LowestFullRun(cells[..limit], limit, n);
    }
  }

  /** A full run ends inside the bitmap. */
  lemma RunFits(cells: seq<bool>, limit: nat, n: nat)
    requires limit <= |cells| && FirstFit(cells, limit, n, 0).Some?
    ensures FirstFit(cells, limit, n, 0).value + n <= limit <==> HasFullRun(cells, limit, n)
  {
    TruncatedExactlyWhen(cells, limit, n);
  }

  /** The chunk keeps its bytes exactly when a full run exists, or every chunk bit that a truncated run marks was set
      already. */
  lemma ChunkKeptExactlyWhen(before: seq<byte>, after: seq<byte>, base: nat, size: nat, index: nat, n: nat)
    requires |after| == |before| && base + size <= |before|
    requires FirstFit(BitsFrom(before, base), 8 * size, n, 0) == Some(index)
    requires index + n <= 8 * (|before| - base)
    requires BitsFrom(after, base) == WithRange(BitsFrom(before, base), index, n, true)
    ensures after[base + size..] == before[base + size..]
        <==> HasFullRun(BitsFrom(before, base), 8 * size, n) || TailSet(BitsFrom(before, base), 8 * size, index, n)
  {
    RunFits(BitsFrom(before, base), 8 * size, n);
    BitsDecideBytes(before, after, base, size);
    TailMarked(BitsFrom(before, base), 8 * size, index, n);
  }

  /** Marking leaves the bits behind the bitmap as they are exactly when it reaches none of them, or all were set. */
  lemma TailMarked(cells: seq<bool>, limit: nat, index: nat, n: nat)
    requires index < limit <= |cells| && index + n <= |cells|
    ensures WithRange(cells, index, n, true)[limit..] == cells[limit..]
        <==> index + n <= limit || TailSet(cells, limit, index, n)
  {
    var marked := WithRange(cells, index, n, true);
    if TailSet(cells, limit, index, n) {
      assert marked[limit..] == cells[limit..];
    } else {
      var i :| limit <= i < index + n && !cells[i];
      assert marked[limit..][i - limit] != cells[limit..][i - limit];
    }
  }

  /** kheap, with the fields of kheap_t and the memory that its bitmap and chunk lie in. */
  class Heap {
    const bitmap: Bitmap
    var chunkSize: u32
    var used: u32
    var granularity: u32
    var start: u32
    ghost var live: seq<Block>  // the blocks handed out and not yet freed

    constructor (bitmap: Bitmap)
      ensures this.bitmap == bitmap
    {
      this.bitmap := bitmap;
      chunkSize, used, granularity, start := 0, 0, 1, 0;
      live := [];
    }

    ghost predicate Valid()
      reads this, bitmap
    {
      && 0 < granularity < 0x1_0000
      && bitmap.size == BlockCount(chunkSize, granularity) / 8
      && start == bitmap.buffer + bitmap.size
      && start + chunkSize <= bitmap.mem.Length <= 0x1_0000_0000
    }

    ghost function Limit(): nat
      reads this, bitmap
    {
      8 * bitmap.size
    }

    /** What the laws speak of: the bitmap's own bits, the counter and the live blocks. */
    ghost function State(): World
      requires Valid()
      reads this, bitmap, bitmap.mem
    {
      World(bitmap.Cells()[..Limit()], used, live)
    }

    /** kheap_memory_size_of. */
    static method MemorySizeOf(memorySize: u32, granularity: u32) returns (bytes: u32)
      requires granularity > 0
      ensures bytes == Wrap(HEADER_BYTES + BlockCount(memorySize, granularity) / 8 + memorySize)
    {
      var bitmapBytes := BlockCount(memorySize, granularity) / 8;
      ThreeSums(HEADER_BYTES, bitmapBytes, memorySize);
      bytes := 0;
      bytes := Wrap(bytes + HEADER_BYTES);
      bytes := Wrap(bytes + bitmapBytes);
      bytes := Wrap(bytes + memorySize);
    }

    /** kheap_add: header, bitmap and chunk are laid out one after the other from addr, and zeroed. */
    method Add(addr: u32, memorySize: u32, granularity: u32)
      requires 0 < granularity < 0x1_0000
      requires bitmap.mem.Length <= 0x1_0000_0000
      requires addr + HEADER_BYTES + BlockCount(memorySize, granularity) / 8 + memorySize <= bitmap.mem.Length
      requires addr + HEADER_BYTES + BlockCount(memorySize, granularity) / 8 + memorySize < 0x1_0000_0000
      modifies this, bitmap`size, bitmap`buffer, bitmap.mem
      ensures Valid() && this.granularity == granularity && chunkSize == memorySize
      ensures bitmap.buffer == addr + HEADER_BYTES
      ensures State() == Fresh(memorySize, granularity)
      ensures SameOutside(old(bitmap.mem[..]), bitmap.mem[..], addr, start + chunkSize)
      ensures forall a :: addr <= a < start + chunkSize ==> bitmap.mem[a] == 0
    {
      var bitmapSize := BlockCount(memorySize, granularity) / 8;
      ghost var end := addr + HEADER_BYTES + bitmapSize + memorySize;
      Clear(addr, memorySize, granularity, end);
      LayOut(addr, bitmapSize, memorySize, granularity);
      assert start + chunkSize == end;
    }

    /** The memset at the beginning. */
    method Clear(addr: u32, memorySize: u32, granularity: u32, ghost end: nat)
      requires granularity > 0 && end < 0x1_0000_0000 && end <= bitmap.mem.Length
      requires end == addr + HEADER_BYTES + BlockCount(memorySize, granularity) / 8 + memorySize
      modifies bitmap.mem
      ensures SameOutside(old(bitmap.mem[..]), bitmap.mem[..], addr, end)
      ensures forall a :: addr <= a < end ==> bitmap.mem[a] == 0
    {
      var kheapSize := MemorySizeOf(memorySize, granularity);
      WrapSmall(HEADER_BYTES + BlockCount(memorySize, granularity) / 8 + memorySize);
      Zero(bitmap.mem, addr, kheapSize);
    }

    /** The fields. */
    method LayOut(addr: u32, bitmapSize: u32, memorySize: u32, granularity: u32)
      requires 0 < granularity < 0x1_0000 && bitmapSize == BlockCount(memorySize, granularity) / 8
      requires bitmap.mem.Length <= 0x1_0000_0000 && addr + HEADER_BYTES + bitmapSize + memorySize < 0x1_0000_0000
      requires addr + HEADER_BYTES + bitmapSize + memorySize <= bitmap.mem.Length
      requires forall a :: addr + HEADER_BYTES <= a < addr + HEADER_BYTES + bitmapSize ==> bitmap.mem[a] == 0
      modifies this, bitmap`size, bitmap`buffer
      ensures Valid() && this.granularity == granularity && chunkSize == memorySize
      ensures bitmap.buffer == addr + HEADER_BYTES && start == addr + HEADER_BYTES + bitmapSize
      ensures State() == Fresh(memorySize, granularity)
    {
      bitmap.size := bitmapSize;
      bitmap.buffer := addr + HEADER_BYTES;
      chunkSize := memorySize;
      used := 0;
      live := [];
      this.granularity := granularity;
      start := addr + HEADER_BYTES + bitmapSize;
      ZeroBytesClearBits(bitmap.mem[..], bitmap.buffer, bitmapSize);
      assert bitmap.Cells()[..Limit()] == AllClear(8 * bitmapSize);
    }

    /** kmalloc. None stands for the PANIC. The bits marked are those of the first fit. When no full run exists, they
        run past the bitmap into the chunk, and memory must reach that far. */
    method Malloc(size: u32) returns (result: Option<u32>)
      requires Valid()
      requires !HasFullRun(bitmap.Cells(), Limit(), BlockCount(size, granularity)) ==>
        && Limit() + BlockCount(size, granularity) <= 8 * (bitmap.mem.Length - bitmap.buffer)
        && Limit() + BlockCount(size, granularity) < 0x1_0000_0000
      modifies `used, `live, bitmap.mem
      ensures Valid()
      ensures match FirstFit(old(bitmap.Cells()), Limit(), BlockCount(size, granularity), 0)
              case None =>
                result == None && used == old(used) && live == old(live) && bitmap.mem[..] == old(bitmap.mem[..])
              case Some(index) =>
                && index * granularity < chunkSize && result == Some(start + index * granularity)
                && bitmap.Cells() == WithRange(old(bitmap.Cells()), index, BlockCount(size, granularity), true)
                && used == Wrap(old(used) + size) && live == old(live) + [Block(index, size)]
                && OnlyMarked(old(bitmap.mem[..]), index, BlockCount(size, granularity))
                && (bitmap.mem[start..] == old(bitmap.mem[start..])
                    <==> || HasFullRun(old(bitmap.Cells()), Limit(), BlockCount(size, granularity))
                         || TailSet(old(bitmap.Cells()), Limit(), index, BlockCount(size, granularity)))
      ensures Allowed(old(State()), granularity, Allocate(size)) ==>
                State() == Act(old(State()), granularity, Allocate(size))
    {
      var blockCount := BlockCount(size, granularity);
      var run, _ := FindRun(bitmap, blockCount);
      SearchingTheBitmap(bitmap.Cells(), Limit(), blockCount, 0);
      if run.None? {
        NoRunIsNotAllowed(bitmap.Cells(), Limit(), blockCount);
        return None;
      }
      var pointer := Obtain(run.value, blockCount, size);
      return Some(pointer);
    }

    /** The half of kmalloc behind a search that found a run. */
    method Obtain(index: u32, blockCount: u32, size: u32) returns (pointer: u32)
      requires Valid() && blockCount == BlockCount(size, granularity)
      requires FirstFit(bitmap.Cells(), Limit(), blockCount, 0) == Some(index)
      requires !HasFullRun(bitmap.Cells(), Limit(), blockCount) ==>
        && Limit() + blockCount <= 8 * (bitmap.mem.Length - bitmap.buffer) && Limit() + blockCount < 0x1_0000_0000
      modifies `used, `live, bitmap.mem
      ensures Valid() && index * granularity < chunkSize && pointer == start + index * granularity
      ensures bitmap.Cells() == WithRange(old(bitmap.Cells()), index, blockCount, true)
      ensures used == Wrap(old(used) + size) && live == old(live) + [Block(index, size)]
      ensures OnlyMarked(old(bitmap.mem[..]), index, blockCount)
      ensures bitmap.mem[start..] == old(bitmap.mem[start..])
          <==> || HasFullRun(old(bitmap.Cells()), Limit(), blockCount)
               || TailSet(old(bitmap.Cells()), Limit(), index, blockCount)
      ensures Allowed(old(State()), granularity, Allocate(size)) ==>
                State() == Act(old(State()), granularity, Allocate(size))
    {
      pointer := PointerTo(index);
      TakeIsAct(bitmap.Cells(), State(), size, index, blockCount);
      Take(index, blockCount, size);
    }

    ghost function Taken(cells: seq<bool>, w: World, size: u32, index: nat, n: nat): World
      requires Limit() <= |cells|
      reads this, bitmap
    {
      World(WithRange(cells, index, n, true)[..Limit()], Wrap(w.used + size), w.live + [Block(index, size)])
    }

    lemma TakeIsAct(cells: seq<bool>, w: World, size: u32, index: nat, n: nat)
      requires granularity > 0 && Limit() <= |cells| && w.cells == cells[..Limit()]
      requires n == BlockCount(size, granularity) && FirstFit(cells, Limit(), n, 0) == Some(index)
      ensures Allowed(w, granularity, Allocate(size)) ==>
                Act(w, granularity, Allocate(size)) == Taken(cells, w, size, index, n)
    {
      if Allowed(w, granularity, Allocate(size)) {
        MallocIsAllocate(cells, Limit(), w.used, w.live, granularity, size);
      }
    }

    /** Marks the run that was found. */
    method Take(index: u32, blockCount: u32, size: u32)
      requires Valid() && FirstFit(bitmap.Cells(), Limit(), blockCount, 0) == Some(index)
      requires !HasFullRun(bitmap.Cells(), Limit(), blockCount) ==>
        && Limit() + blockCount <= 8 * (bitmap.mem.Length - bitmap.buffer) && Limit() + blockCount < 0x1_0000_0000
      modifies `used, `live, bitmap.mem
      ensures Valid()
      ensures bitmap.Cells() == WithRange(old(bitmap.Cells()), index, blockCount, true)
      ensures used == Wrap(old(used) + size) && live == old(live) + [Block(index, size)]
      ensures State() == Taken(old(bitmap.Cells()), old(State()), size, index, blockCount)
      ensures OnlyMarked(old(bitmap.mem[..]), index, blockCount)
      ensures bitmap.mem[start..] == old(bitmap.mem[start..])
          <==> || HasFullRun(old(bitmap.Cells()), Limit(), blockCount)
               || TailSet(old(bitmap.Cells()), Limit(), index, blockCount)
    {
      MarkRun(index, blockCount);
      used := Wrap(used + size);
      live := live + [Block(index, size)];
    }

    method MarkRun(index: u32, blockCount: u32)
      requires Valid() && FirstFit(bitmap.Cells(), Limit(), blockCount, 0) == Some(index)
      requires !HasFullRun(bitmap.Cells(), Limit(), blockCount) ==>
        && Limit() + blockCount <= 8 * (bitmap.mem.Length - bitmap.buffer) && Limit() + blockCount < 0x1_0000_0000
      modifies bitmap.mem
      ensures bitmap.Cells() == WithRange(old(bitmap.Cells()), index, blockCount, true)
      ensures OnlyMarked(old(bitmap.mem[..]), index, blockCount)
      ensures bitmap.mem[start..] == old(bitmap.mem[start..])
          <==> || HasFullRun(old(bitmap.Cells()), Limit(), blockCount)
               || TailSet(old(bitmap.Cells()), Limit(), index, blockCount)
    {
      ghost var bytes := bitmap.mem[..];
      RunFits(bitmap.Cells(), Limit(), blockCount);
      MarkRange(index, blockCount, true);
      ChunkKeptExactlyWhen(bytes, bitmap.mem[..], bitmap.buffer, bitmap.size, index, blockCount);
      assert bitmap.mem[start..] == bitmap.mem[..][start..];
    }

    /** No byte has changed but those that hold marked bits. */
    ghost predicate OnlyMarked(before: seq<byte>, from: nat, n: nat)
      reads bitmap, bitmap.mem
    {
      && |before| == bitmap.mem.Length
      && forall a :: 0 <= a < |before| && Outside(a - bitmap.buffer, from, n) ==> bitmap.mem[a] == before[a]
    }

    /** The pointer that kmalloc returns; neither the product nor the sum can wrap around. */
    method PointerTo(index: u32) returns (pointer: u32)
      requires Valid() && index < Limit()
      ensures index * granularity < chunkSize && pointer == start + index * granularity
    {
      BlocksStartInChunk(chunkSize, granularity, index);
      var offset: u32 := index * granularity;
      pointer := start + offset;
    }

    /** The pointer of a live block whose index kfree finds back. */
    ghost predicate PointsTo(pointer: u32, size: u32, k: nat)
      reads this
    {
      && k < |live| && live[k].size == size
      && pointer == start + live[k].index * granularity && live[k].index * granularity < 0x8000_0000
    }

    /** Such a pointer may be freed. */
    lemma LiveMayBeFreed(pointer: u32, size: u32, k: nat)
      requires Valid() && Exact(State(), granularity) && PointsTo(pointer, size, k)
      ensures var index := FreeIndex(pointer, start, granularity);
        index == live[k].index && index + BlockCount(size, granularity) <= Limit() < 0x1_0000_0000
    {
      FreeIndexExactlyWhen(start, live[k].index, granularity);
      assert InBounds(live[k], granularity, Limit());
    }

    /** kfree. The pointer must lead to bits in memory, as one of a live block does; k says of which one, if any. */
    method Free(pointer: u32, size: u32, ghost k: nat)
      requires Valid()
      requires var index := FreeIndex(pointer, start, granularity);
        && 0 <= index && index + BlockCount(size, granularity) <= 8 * (bitmap.mem.Length - bitmap.buffer)
        && index + BlockCount(size, granularity) < 0x1_0000_0000
      modifies `used, `live, bitmap.mem
      ensures Valid()
      ensures var index := FreeIndex(pointer, start, granularity);
        && bitmap.Cells() == WithRange(old(bitmap.Cells()), index, BlockCount(size, granularity), false)
        && used == Wrap(old(used) - size)
        && OnlyMarked(old(bitmap.mem[..]), index, BlockCount(size, granularity))
      ensures if old(PointsTo(pointer, size, k)) then State() == Act(old(State()), granularity, Release(k))
              else live == old(live)
    {
      ghost var before, state := bitmap.Cells(), State();
      var blockCount := BlockCount(size, granularity);
      var index := Truncated(Signed(Wrap(pointer - start)), granularity);
      MarkRange(index, blockCount, false);
      used := Wrap(used - size);
      if PointsTo(pointer, size, k) {
        FreeIsRelease(before, Limit(), state.used, state.live, granularity, start, k);
        live := live[..k] + live[k + 1..];
      }
    }

    /** The marking loop of both. */
    method MarkRange(index: u32, blockCount: u32, value: bool)
      requires bitmap.buffer <= bitmap.mem.Length
      requires index + blockCount <= 8 * (bitmap.mem.Length - bitmap.buffer) && index + blockCount < 0x1_0000_0000
      modifies bitmap.mem
      ensures bitmap.Cells() == WithRange(old(bitmap.Cells()), index, blockCount, value)
      ensures OnlyMarked(old(bitmap.mem[..]), index, blockCount)
    {
      ghost var before, bytes := bitmap.Cells(), bitmap.mem[..];
      assert WithRange(before, index, 0, value) == before;
      for i := 0 to blockCount
        invariant bitmap.Cells() == WithRange(before, index, i, value)
        invariant OnlyMarked(bytes, index, blockCount)
      {
        RangeGrows(before, index, i, value);
        bitmap.Set(index + i, value);
      }
    }
  }
}
