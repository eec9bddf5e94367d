/** kernel/arch/i386/paging/page_frame_allocator.c, over a bitmap in byte-addressed memory. */
module FrameAllocation {
  import opened Words
  import opened Bytes
  import opened Bitmaps
  import opened PhysicalMemory
  import opened RunSearch
  import opened CellCounts
  import opened Frames

  const MEMORY_AVAILABLE: u32 := 1
  const TAG_TYPE_MMAP: u32 := 6

  /** The NUM_PAGES macro: it divides by 4098. */
  function NumPages(bytes: u32): u32 {
    bytes / 4098 + 1
  }

  /** NUM_PAGES counts every page of k whole pages exactly up to k == 2049. */
  lemma NumPagesCoversExactlyWhen(k: nat)
    requires k * 4096 < 0x1_0000_0000
    ensures NumPages(k * 4096) >= k <==> k <= 2049
  {
  }

  /** It is the number of whole 4098-byte pieces and one more. */
  lemma NumPagesBounds(bytes: u32)
    ensures (NumPages(bytes) - 1) * 4098 <= bytes < NumPages(bytes) * 4098
  {
  }

  function BitmapBytes(memorySize: u32): u32 {
    memorySize / 4096 / 8 + 1
  }

  /** The bitmap has a bit for every page of memory, for at most 8 pages more, and never more than the 2^20
      pages that exist. */
  lemma BitmapCoversMemory(memorySize: u32, page: nat)
    ensures page * 4096 < memorySize ==> page < 8 * BitmapBytes(memorySize)
    ensures 8 * BitmapBytes(memorySize) <= memorySize / 4096 + 8
    ensures 8 * BitmapBytes(memorySize) <= 0x10_0000
  {
  }

  lemma BitmapBytesBounds(memorySize: u32)
    ensures 32768 * (BitmapBytes(memorySize) - 1) <= memorySize < 32768 * BitmapBytes(memorySize)
  {
    assert memorySize / 4096 / 8 == memorySize / 32768;
  }

  // ----- The boot-time memory map -----

  datatype MmapEntry = MmapEntry(length: nat, kind: u32)

  /** A memory-map tag as the boot loader stores it: entries of entrySize bytes after a 16-byte header. */
  datatype MmapTag = MmapTag(address: u32, kind: u32, size: u32, entrySize: u32, entries: seq<MmapEntry>) {
    ghost predicate WellFormed() {
      && entrySize > 0
      && address + size == EntryAddress(|entries|)
      && address + size + entrySize < 0x1_0000_0000
    }

    ghost function EntryAddress(i: nat): nat {
      if i == 0 then address + 16 else EntryAddress(i - 1) + entrySize
    }
  }

  /** Behind the header of 16 bytes, the entries lie one after the other. */
  lemma {:induction false} EntryAddressIs(tag: MmapTag, i: nat)
    ensures tag.EntryAddress(i) == tag.address + 16 + i * tag.entrySize
  {
    if i > 0 {
      EntryAddressIs(tag, i - 1);
      assert i * tag.entrySize == (i - 1) * tag.entrySize + tag.entrySize;
    }
  }

  /** Stepping by entrySize meets the entries one by one and ends after the last. */
  lemma EntrySteps(tag: MmapTag, i: nat)
    requires tag.WellFormed() && i <= |tag.entries|
    ensures tag.EntryAddress(i) < tag.address + tag.size <==> i < |tag.entries|
    ensures tag.EntryAddress(i) + tag.entrySize == tag.EntryAddress(i + 1)
    ensures tag.EntryAddress(i) + tag.entrySize < 0x1_0000_0000
  {
    EntriesAscend(tag, i, |tag.entries|);
  }

  lemma {:induction false} EntriesAscend(tag: MmapTag, i: nat, j: nat)
    requires tag.entrySize > 0 && i <= j
    ensures if i < j then tag.EntryAddress(i) < tag.EntryAddress(j) else tag.EntryAddress(i) == tag.EntryAddress(j)
    decreases j
  {
    if i < j {
      EntriesAscend(tag, i, j - 1);
    }
  }

  ghost function TotalLength(entries: seq<MmapEntry>): nat {
    if entries == [] then 0
    else TotalLength(entries[..|entries| - 1]) + entries[|entries| - 1].length
  }

  ghost function AvailableLength(entries: seq<MmapEntry>): nat {
    if entries == [] then 0
    else
      var last := entries[|entries| - 1];
      AvailableLength(entries[..|entries| - 1]) + if last.kind == MEMORY_AVAILABLE then last.length else 0
  }

  /** The available memory is that of the entries of type 1. */
  lemma LengthsOfOneMore(entries: seq<MmapEntry>, entry: MmapEntry)
    ensures TotalLength(entries + [entry]) == TotalLength(entries) + entry.length
    ensures AvailableLength(entries + [entry]) == AvailableLength(entries) + if entry.kind == 1 then entry.length else 0
    ensures TotalLength([]) == AvailableLength([]) == 0
  {
    assert (entries + [entry])[..|entries|] == entries;
  }

  /** One more entry in the 32-bit sums of the first loop. */
  lemma TotalGrows(entries: seq<MmapEntry>, i: nat, sum: u32)
    requires i < |entries| && sum == Wrap(TotalLength(entries[..i]))
    ensures Wrap(sum + Wrap(entries[i].length)) == Wrap(TotalLength(entries[..i + 1]))
  {
    assert entries[..i + 1][..i] == entries[..i];
    WrapBoth(TotalLength(entries[..i]), entries[i].length);
  }

  lemma AvailableGrows(entries: seq<MmapEntry>, i: nat, start: u32, free: u32)
    requires i < |entries| && free == Wrap(start + AvailableLength(entries[..i]))
    ensures (if entries[i].kind == MEMORY_AVAILABLE then Wrap(free + Wrap(entries[i].length)) else free)
         == Wrap(start + AvailableLength(entries[..i + 1]))
  {
    assert entries[..i + 1][..i] == entries[..i];
    WrapBoth(start + AvailableLength(entries[..i]), entries[i].length);
  }

  /** The second loop reserves the pages at the entries' own addresses, not at the regions they describe. */
  ghost function ReserveEntries(s: Frames, tag: MmapTag, n: nat): (t: Frames)
    requires Addressable(s) && tag.WellFormed() && n <= |tag.entries|
    ensures Addressable(t)
  {
    if n == 0 then s
    else
      var t := ReserveEntries(s, tag, n - 1);
      var entry := tag.entries[n - 1];
      if entry.kind == MEMORY_AVAILABLE then t
      else EntrySteps(tag, n - 1);
           ApplyPages(Reserve, t, tag.EntryAddress(n - 1), NumPages(Wrap(entry.length)))
  }

  lemma {:induction false} ReserveEntriesBalance(s: Frames, tag: MmapTag, n: nat)
    requires Addressable(s) && tag.WellFormed() && n <= |tag.entries|
    ensures Balance(ReserveEntries(s, tag, n)) == Balance(s)
  {
    if n > 0 {
      ReserveEntriesBalance(s, tag, n - 1);
      EntrySteps(tag, n - 1);
      var t := ReserveEntries(s, tag, n - 1);
      ApplyPagesBalance(Reserve, t, tag.EntryAddress(n - 1), NumPages(Wrap(tag.entries[n - 1].length)));
    }
  }

  /** The state that booting leaves, given the bits that memory held from kernelEnd on and the counters
      after the first loop. */
  ghost function BootState(bits: seq<bool>, tag: MmapTag, kernelEnd: u32, s: Frames): Frames
    requires |bits| >= 0x10_0000 && tag.WellFormed()
  {
    var bytes := BitmapBytes(Wrap(TotalLength(tag.entries)));
    var cleared := s.(cells := AllClear(8 * bytes) + bits[8 * bytes..]);
    ReserveEntries(ApplyPages(Lock, cleared, kernelEnd, NumPages(bytes)), tag, |tag.entries|)
  }

  /** The page is one of those that the second loop reserves for an entry: they start at the entry's own
      address. */
  ghost predicate EntryMarks(tag: MmapTag, i: nat, page: nat)
    requires tag.WellFormed() && i < |tag.entries|
  {
    EntrySteps(tag, i);
    && tag.entries[i].kind != MEMORY_AVAILABLE
    && Visits(tag.EntryAddress(i), NumPages(Wrap(tag.entries[i].length)), page)
  }

  lemma {:induction false} ReserveEntriesCells(s: Frames, tag: MmapTag, n: nat, page: nat)
    requires Addressable(s) && tag.WellFormed() && n <= |tag.entries| && page < |s.cells|
    ensures |ReserveEntries(s, tag, n).cells| == |s.cells|
    ensures ReserveEntries(s, tag, n).cells[page]
        <==> s.cells[page] || exists i :: 0 <= i < n && EntryMarks(tag, i, page)
  {
    if n > 0 {
      ReserveEntriesCells(s, tag, n - 1, page);
      EntrySteps(tag, n - 1);
      var t, entry := ReserveEntries(s, tag, n - 1), tag.entries[n - 1];
      if entry.kind != MEMORY_AVAILABLE {
        PagesCells(Reserve, t, tag.EntryAddress(n - 1), NumPages(Wrap(entry.length)));
      }
      assert (exists i :: 0 <= i < n && EntryMarks(tag, i, page))
        <==> (exists i :: 0 <= i < n - 1 && EntryMarks(tag, i, page)) || EntryMarks(tag, n - 1, page);
    }
  }

  /** The pages marked after boot are exactly those of the bitmap, those that the loop over the unavailable
      entries reaches, and those whose bits lie behind the bitmap and were set there: where the entries say
      that memory is makes no difference. */
  lemma BootMarksExactly(bits: seq<bool>, tag: MmapTag, kernelEnd: u32, s: Frames, page: nat)
    requires |bits| >= 0x10_0000 && tag.WellFormed() && page < |bits|
    ensures |BootState(bits, tag, kernelEnd, s).cells| == |bits|
    ensures var bytes := BitmapBytes(Wrap(TotalLength(tag.entries)));
      BootState(bits, tag, kernelEnd, s).cells[page]
      <==> || (page >= 8 * bytes && bits[page])
           || Visits(kernelEnd, NumPages(bytes), page)
           || exists i :: 0 <= i < |tag.entries| && EntryMarks(tag, i, page)
  {
    var bytes := BitmapBytes(Wrap(TotalLength(tag.entries)));
    var cleared := s.(cells := AllClear(8 * bytes) + bits[8 * bytes..]);
    LockedAndReserved(cleared, tag, kernelEnd, NumPages(bytes), page);
    ClearedAt(bits, 8 * bytes, page);
  }

  lemma ClearedAt(bits: seq<bool>, n: nat, page: nat)
    requires n <= |bits| && page < |bits|
    ensures |AllClear(n) + bits[n..]| == |bits|
    ensures (AllClear(n) + bits[n..])[page] <==> page >= n && bits[page]
  {
  }

  lemma LockedAndReserved(s: Frames, tag: MmapTag, kernelEnd: u32, n: nat, page: nat)
    requires Addressable(s) && tag.WellFormed() && page < |s.cells|
    ensures var t := ReserveEntries(ApplyPages(Lock, s, kernelEnd, n), tag, |tag.entries|);
      && |t.cells| == |s.cells|
      && (t.cells[page] <==> || s.cells[page] || Visits(kernelEnd, n, page)
                             || exists i :: 0 <= i < |tag.entries| && EntryMarks(tag, i, page))
  {
    PagesCells(Lock, s, kernelEnd, n);
    ReserveEntriesCells(ApplyPages(Lock, s, kernelEnd, n), tag, |tag.entries|, page);
  }

  /** The bitmap has bits for the pages that booting locks and reserves. */
  ghost predicate BootCovered(tag: MmapTag, kernelEnd: u32)
    requires tag.WellFormed()
  {
    && PagesBelow(kernelEnd, NumPages(BitmapBytes(Wrap(TotalLength(tag.entries)))), BootLimit(tag))
    && EntriesCovered(tag, |tag.entries|, BootLimit(tag))
  }

  /** How many bytes from KERNEL_END on booting may write to: the bitmap's own, when it covers the pages. */
  ghost function BootExtent(tag: MmapTag, kernelEnd: u32): (bytes: nat)
    requires tag.WellFormed()
  {
    if BootCovered(tag, kernelEnd) then BitmapBytes(Wrap(TotalLength(tag.entries))) else 0x2_0000
  }

  ghost predicate EntriesCovered(tag: MmapTag, n: nat, limit: nat)
    requires tag.WellFormed() && n <= |tag.entries|
  {
    forall i :: 0 <= i < n ==> EntryCovered(tag, i, limit)
  }

  ghost predicate EntryCovered(tag: MmapTag, i: nat, limit: nat)
    requires tag.WellFormed() && i < |tag.entries|
  {
    EntrySteps(tag, i);
    tag.entries[i].kind != MEMORY_AVAILABLE ==>
      PagesBelow(tag.EntryAddress(i), NumPages(Wrap(tag.entries[i].length)), limit)
  }

  lemma {:induction false} ReserveStaysInBitmap(s: Frames, tag: MmapTag, n: nat, limit: nat)
    requires Addressable(s) && tag.WellFormed() && n <= |tag.entries|
    requires limit <= 0x10_0000 && EntriesCovered(tag, n, limit)
    ensures ReserveEntries(s, tag, n).cells[limit..] == s.cells[limit..]
  {
    if n > 0 {
      ReserveStaysInBitmap(s, tag, n - 1, limit);
      assert EntryCovered(tag, n - 1, limit);
      EntrySteps(tag, n - 1);
      var entry := tag.entries[n - 1];
      if entry.kind != MEMORY_AVAILABLE {
        BehindUntouched(Reserve, ReserveEntries(s, tag, n - 1), tag.EntryAddress(n - 1),
                        NumPages(Wrap(entry.length)), limit);
      }
    }
  }

  /** The number of bits that booting gives the bitmap. */
  ghost function BootLimit(tag: MmapTag): (limit: nat)
    ensures limit <= 0x10_0000
  {
    BitmapCoversMemory(Wrap(TotalLength(tag.entries)), 0);
    8 * BitmapBytes(Wrap(TotalLength(tag.entries)))
  }

  /** The state after booting, with all counters at zero before. */
  ghost function Booting(bits: seq<bool>, tag: MmapTag, kernelEnd: u32): Frames
    requires |bits| >= 0x10_0000 && tag.WellFormed()
  {
    BootState(bits, tag, kernelEnd, Frames([], Wrap(AvailableLength(tag.entries)), 0, 0))
  }

  /** A covered boot leaves the bits behind the bitmap alone. */
  lemma BootStaysInBitmap(bits: seq<bool>, tag: MmapTag, kernelEnd: u32, s: Frames, limit: nat)
    requires |bits| >= 0x10_0000 && tag.WellFormed() && BootCovered(tag, kernelEnd) && limit == BootLimit(tag)
    ensures BootState(bits, tag, kernelEnd, s).cells[limit..] == bits[limit..]
  {
    var n := NumPages(BitmapBytes(Wrap(TotalLength(tag.entries))));
    var cleared := s.(cells := AllClear(limit) + bits[limit..]);
    BehindUntouched(Lock, cleared, kernelEnd, n, limit);
    ReserveStaysInBitmap(ApplyPages(Lock, cleared, kernelEnd, n), tag, |tag.entries|, limit);
    ClearedBitmap(bits, limit, cleared);
  }

  /** It counts exactly the bits that it sets. */
  lemma BootCounts(bits: seq<bool>, tag: MmapTag, kernelEnd: u32, s: Frames, limit: nat)
    requires |bits| >= 0x10_0000 && tag.WellFormed() && BootCovered(tag, kernelEnd) && limit == BootLimit(tag)
    ensures BitmapBalance(BootState(bits, tag, kernelEnd, s), limit)
         == (Wrap(s.free + s.used), Wrap(s.used + s.reserved))
  {
    var cleared := s.(cells := AllClear(limit) + bits[limit..]);
    assert Balance(BootState(bits, tag, kernelEnd, s)) == Balance(cleared) by {
      BootBalance(bits, tag, kernelEnd, s);
      ClearedBalance(bits, limit, s);
    }
    BootStaysInBitmap(bits, tag, kernelEnd, s, limit);
    ClearedBitmap(bits, limit, cleared);
    BalanceInBitmap(cleared, BootState(bits, tag, kernelEnd, s), limit);
  }

  lemma ClearedBitmap(bits: seq<bool>, limit: nat, s: Frames)
    requires limit <= |bits| && s.cells == AllClear(limit) + bits[limit..]
    ensures s.cells[limit..] == bits[limit..]
    ensures BitmapBalance(s, limit) == (Wrap(s.free + s.used), Wrap(s.used + s.reserved))
  {
    assert s.cells[..limit] == AllClear(limit);
    CountClear(limit);
  }

  /** After a covered boot and any run of covered operations, whatever the rest of the kernel writes behind the
      bitmap in between: free + used is the available memory that the boot loader reported, and used + reserved
      is 4096 per set bit of the bitmap. */
  lemma ConservationSinceBoot(bits: seq<bool>, tag: MmapTag, kernelEnd: u32, events: seq<Event>)
    requires |bits| >= 0x10_0000 && tag.WellFormed() && BootCovered(tag, kernelEnd)
    requires AllCovered(Booting(bits, tag, kernelEnd), BootLimit(tag), events)
    ensures var s := HappenAll(Booting(bits, tag, kernelEnd), BootLimit(tag), events);
      && Wrap(s.free + s.used) == Wrap(AvailableLength(tag.entries))
      && Wrap(s.used + s.reserved) == Wrap(4096 * Count(s.cells[..BootLimit(tag)]))
  {
    BootCountsFromZero(bits, tag, kernelEnd, Frames([], Wrap(AvailableLength(tag.entries)), 0, 0), BootLimit(tag));
    CountersStay(Booting(bits, tag, kernelEnd), BootLimit(tag), events, Wrap(AvailableLength(tag.entries)));
  }

  lemma BootCountsFromZero(bits: seq<bool>, tag: MmapTag, kernelEnd: u32, s: Frames, limit: nat)
    requires |bits| >= 0x10_0000 && tag.WellFormed() && BootCovered(tag, kernelEnd) && limit == BootLimit(tag)
    requires s.used == s.reserved == 0
    ensures BitmapBalance(BootState(bits, tag, kernelEnd, s), limit) == (s.free, 0)
  {
    BootCounts(bits, tag, kernelEnd, s, limit);
    WrapSmall(s.free);
  }

  lemma CountersStay(booted: Frames, limit: nat, events: seq<Event>, available: u32)
    requires Addressable(booted) && limit <= 0x10_0000 && AllCovered(booted, limit, events)
    requires BitmapBalance(booted, limit) == (available, 0)
    ensures var s := HappenAll(booted, limit, events);
      Wrap(s.free + s.used) == available && Wrap(s.used + s.reserved) == Wrap(4096 * Count(s.cells[..limit]))
  {
    BitmapConservation(booted, limit, events);
    CountersFollow(HappenAll(booted, limit, events), limit, available);
  }

  lemma CountersFollow(s: Frames, limit: nat, available: u32)
    requires limit <= |s.cells| && BitmapBalance(s, limit) == (available, 0)
    ensures Wrap(s.free + s.used) == available
    ensures Wrap(s.used + s.reserved) == Wrap(4096 * Count(s.cells[..limit]))
  {
    var marked := 4096 * Count(s.cells[..limit]);
    WrapShift(s.used + s.reserved - marked, 0, marked);
  }

  /** The same for operations at any addresses, as long as nothing else writes to the memory behind the bitmap:
      used + reserved is then 4096 per bit set anywhere since the bitmap was cleared. */
  lemma ConservationAnywhere(bits: seq<bool>, tag: MmapTag, kernelEnd: u32, operations: seq<Operation>)
    requires |bits| >= 0x10_0000 && tag.WellFormed()
    ensures var s := Run(Booting(bits, tag, kernelEnd), BootLimit(tag), operations);
      && Wrap(s.free + s.used) == Wrap(AvailableLength(tag.entries))
      && Wrap(s.used + s.reserved) == Wrap(4096 * (Count(s.cells) - Count(bits[BootLimit(tag)..])))
  {
    var available := Wrap(AvailableLength(tag.entries));
    BootBalance(bits, tag, kernelEnd, Frames([], available, 0, 0));
    TakenOverRun(Booting(bits, tag, kernelEnd), BootLimit(tag), operations, bits[BootLimit(tag)..], available);
  }

  lemma TakenOverRun(booted: Frames, limit: nat, operations: seq<Operation>, cells: seq<bool>, available: u32)
    requires Addressable(booted) && limit <= 0x10_0000
    requires Balance(booted) == Balance(Frames(cells, available, 0, 0))
    ensures var s := Run(booted, limit, operations);
      && Wrap(s.free + s.used) == available
      && Wrap(s.used + s.reserved) == Wrap(4096 * (Count(s.cells) - Count(cells)))
  {
    Conservation(booted, limit, operations);
    TakenMemory(Run(booted, limit, operations), cells, available);
  }

  /** Two states of equal balance, read as an equation for the counters. */
  lemma TakenMemory(s: Frames, cells: seq<bool>, available: u32)
    requires Balance(s) == Balance(Frames(cells, available, 0, 0))
    ensures Wrap(s.free + s.used) == available
    ensures Wrap(s.used + s.reserved) == Wrap(4096 * (Count(s.cells) - Count(cells)))
  {
    WrapSmall(available);
    WrapShift(s.used + s.reserved - 4096 * Count(s.cells), -4096 * Count(cells), 4096 * Count(s.cells));
  }

  lemma ClearedBalance(bits: seq<bool>, n: nat, s: Frames)
    requires n <= |bits|
    ensures Balance(s.(cells := AllClear(n) + bits[n..])) == Balance(s.(cells := bits[n..]))
  {
    CountConcat(AllClear(n), bits[n..]);
    CountClear(n);
  }

  /** Booting keeps the balance of a state whose only set bits are those beyond the bitmap. */
  lemma BootBalance(bits: seq<bool>, tag: MmapTag, kernelEnd: u32, s: Frames)
    requires |bits| >= 0x10_0000 && tag.WellFormed()
    ensures Balance(BootState(bits, tag, kernelEnd, s)) == Balance(s.(cells := bits[BootLimit(tag)..]))
  {
    var limit := BootLimit(tag);
    var n := NumPages(BitmapBytes(Wrap(TotalLength(tag.entries))));
    var cleared := s.(cells := AllClear(limit) + bits[limit..]);
    ClearedBalance(bits, limit, s);
    ApplyPagesBalance(Lock, cleared, kernelEnd, n);
    ReserveEntriesBalance(ApplyPages(Lock, cleared, kernelEnd, n), tag, |tag.entries|);
  }

  lemma {:induction false} ReserveEntriesKeep(s: Frames, tag: MmapTag, n: nat)
    requires Addressable(s) && tag.WellFormed() && n <= |tag.entries|
    ensures ReserveEntries(s, tag, n).free == s.free && ReserveEntries(s, tag, n).used == s.used
  {
    if n > 0 {
      ReserveEntriesKeep(s, tag, n - 1);
      EntrySteps(tag, n - 1);
      var t := ReserveEntries(s, tag, n - 1);
      OtherCountersKept(Reserve, t, tag.EntryAddress(n - 1), NumPages(Wrap(tag.entries[n - 1].length)));
    }
  }

  lemma ReservedCounters(s: Frames, tag: MmapTag)
    requires Addressable(s) && tag.WellFormed()
    ensures var t := ReserveEntries(s, tag, |tag.entries|);
      t == Following(Reserve, s, t.cells)
  {
    ReserveEntriesKeep(s, tag, |tag.entries|);
    ReserveEntriesBalance(s, tag, |tag.entries|);
    CountersSolved(s, ReserveEntries(s, tag, |tag.entries|));
  }

  lemma LockedCounters(s: Frames, address: u32, n: nat, marked: seq<bool>)
    requires Addressable(s) && |marked| == |s.cells|
    requires forall p :: 0 <= p < |marked| ==> (marked[p] <==> s.cells[p] || Visits(address, n, p))
    ensures ApplyPages(Lock, s, address, n) == Following(Lock, s, marked)
  {
    var t := ApplyPages(Lock, s, address, n);
    PagesCells(Lock, s, address, n);
    CountersFollowBits(Lock, s, address, n);
    assert t.cells == marked;
  }

  /** The counters after boot: the pages of the bitmap move from free to used, and what the second loop marks is
      reserved. */
  lemma BootCounters(bits: seq<bool>, tag: MmapTag, kernelEnd: u32, s: Frames, marked: seq<bool>, limit: nat)
    requires |bits| >= 0x10_0000 && tag.WellFormed() && limit == BootLimit(tag) && |marked| == |bits|
    requires forall p :: 0 <= p < |bits| ==>
               (marked[p] <==> (p >= limit && bits[p]) || Visits(kernelEnd, NumPages(limit / 8), p))
    ensures var t := BootState(bits, tag, kernelEnd, s);
      t == Following(Reserve, Following(Lock, s.(cells := AllClear(limit) + bits[limit..]), marked), t.cells)
  {
    var cleared := s.(cells := AllClear(limit) + bits[limit..]);
    LockedCounters(cleared, kernelEnd, NumPages(limit / 8), marked);
    ReservedCounters(ApplyPages(Lock, cleared, kernelEnd, NumPages(limit / 8)), tag);
    BootInSteps(bits, tag, kernelEnd, s, cleared, limit);
  }

  lemma BootInSteps(bits: seq<bool>, tag: MmapTag, kernelEnd: u32, s: Frames, cleared: Frames, limit: nat)
    requires |bits| >= 0x10_0000 && tag.WellFormed() && limit == BootLimit(tag)
    requires cleared == s.(cells := AllClear(limit) + bits[limit..])
    ensures BootState(bits, tag, kernelEnd, s)
         == ReserveEntries(ApplyPages(Lock, cleared, kernelEnd, NumPages(limit / 8)), tag, |tag.entries|)
  {
  }

  /** After boot, a request that finds a full run hands out pages that end with the memory, or less than 8
      pages behind it. */
  lemma FramesInMemory(s: Frames, tag: MmapTag, memorySize: u32, n: nat)
    requires Addressable(s) && tag.WellFormed() && memorySize == Wrap(TotalLength(tag.entries))
    requires HasFullRun(s.cells, BootLimit(tag), n)
    ensures RequestAddress(FirstFit(s.cells, BootLimit(tag), n, 0)) / 4096 + n <= memorySize / 4096 + 8
  {
    RequestHandsOut(s, BootLimit(tag), n);
    BitmapCoversMemory(memorySize, 0);
  }

  /** And so do the blocks held after every run. */
  lemma HeldFramesInMemory(c: Client, tag: MmapTag, memorySize: u32, actions: seq<Action>, i: nat)
    requires tag.WellFormed() && memorySize == Wrap(TotalLength(tag.entries))
    requires Separated(c, BootLimit(tag)) && c.held != [] && AllAllowed(c, BootLimit(tag), actions)
    requires i < |ActAll(c, BootLimit(tag), actions).held|
    ensures var b := ActAll(c, BootLimit(tag), actions).held[i];
      b.start + b.count <= memorySize / 4096 + 8
  {
    FramesStaySeparated(c, BootLimit(tag), actions);
    BitmapCoversMemory(memorySize, 0);
    var d := ActAll(c, BootLimit(tag), actions);
    assert Locked(d.held[i], d.frames.cells, BootLimit(tag));
  }

  datatype Boot = AlreadyInitialized | Panicked | Booted(kernelEnd: u32)

  class FrameAllocator {
    const bitmap: Bitmap
    var freeMemory: u32
    var reservedMemory: u32
    var usedMemory: u32
    var initialized: bool

    constructor (bitmap: Bitmap)
      ensures this.bitmap == bitmap && !initialized
      ensures freeMemory == reservedMemory == usedMemory == 0
    {
      this.bitmap := bitmap;
      freeMemory, reservedMemory, usedMemory := 0, 0, 0;
      initialized := false;
    }

    /** The bitmap fits the address space, and memory extends to the bit of the last 32-bit address. */
    ghost predicate Valid()
      reads this, bitmap
    {
      bitmap.size <= 0x2_0000 && bitmap.buffer + 0x2_0000 <= bitmap.mem.Length <= 0x1_0000_0000
    }

    ghost function State(): (s: Frames)
      requires Valid()
      reads this, bitmap, bitmap.mem
      ensures Addressable(s)
    {
      Frames(bitmap.Cells(), freeMemory, reservedMemory, usedMemory)
    }

    ghost function Limit(): nat
      reads this, bitmap
    {
      8 * bitmap.size
    }

    /** How many bytes from the bitmap's buffer on a range operation may write to: the bitmap's own, when it
        covers the pages. */
    ghost function Extent(address: u32, n: nat): (bytes: nat)
      reads this, bitmap
    {
      if PagesBelow(address, n, Limit()) then bitmap.size else 0x2_0000
    }

    /** The same for a request. */
    ghost function RequestExtent(n: u32): (bytes: nat)
      requires Valid()
      reads this, bitmap, bitmap.mem
    {
      if Within(State(), Limit(), Request(n)) then bitmap.size else 0x2_0000
    }

    lemma PageInExtent(address: u32, n: nat, i: nat)
      requires Valid() && i < n
      ensures PageAddress(address, i) / 4096 / 8 < Extent(address, n)
    {
      PagesBelowMeaning(address, n, Limit());
    }

    lemma PagesInExtent(address: u32, n: nat)
      requires Valid()
      ensures PagesBelow(address, n, 8 * Extent(address, n))
    {
      AllPagesBelow(address, n);
    }

    /** Locking the run that a request finds stays in the request's extent. */
    lemma RunInExtent(start: nat, n: u32)
      requires Valid() && FirstFit(State().cells, Limit(), n, 0) == Some(start)
      ensures start < 0x10_0000 && Extent(start * 4096, n) <= RequestExtent(n)
    {
      if HasFullRun(State().cells, Limit(), n) {
        LowestFullRun(State().cells, Limit(), n);
        FullRunBelow(State().cells, Limit(), n, start);
      }
    }

    lemma ByteInExtent(image: seq<byte>, last: seq<byte>, now: seq<byte>, address: u32, extent: nat)
      requires SameOutside(image, last, bitmap.buffer, bitmap.buffer + extent)
      requires address / 4096 / 8 < extent
      requires var at := bitmap.buffer + address / 4096 / 8; SameOutside(last, now, at, at + 1)
      ensures SameOutside(image, now, bitmap.buffer, bitmap.buffer + extent)
    {
    }

    /** No byte has changed but the one that holds the bit of an address. */
    ghost predicate OneByteChanged(before: seq<byte>, address: u32)
      reads this, bitmap, bitmap.mem
    {
      var at := bitmap.buffer + address / 4096 / 8;
      SameOutside(before, bitmap.mem[..], at, at + 1)
    }

    /** Of n pages, writing page i changes the extent alone. */
    lemma PageWritten(image: seq<byte>, last: seq<byte>, address: u32, n: nat, i: nat, page: u32, extent: nat)
      requires Valid() && i < n && page == PageAddress(address, i) && extent == Extent(address, n)
      requires SameOutside(image, last, bitmap.buffer, bitmap.buffer + extent) && OneByteChanged(last, page)
      ensures SameOutside(image, bitmap.mem[..], bitmap.buffer, bitmap.buffer + extent)
    {
      PageInExtent(address, n, i);
      ByteInExtent(image, last, bitmap.mem[..], page, extent);
    }

    method LockPage(address: u32)
      requires Valid()
      modifies `freeMemory, `usedMemory, bitmap.mem
      ensures Valid() && State() == ApplyPage(Lock, old(State()), address)
      ensures OneByteChanged(old(bitmap.mem[..]), address)
    {
      var index := address / 4096;
      if bitmap.Get(index) {
        return;
      }
      bitmap.Set(index, true);
      freeMemory := Wrap(freeMemory - 4096);
      usedMemory := Wrap(usedMemory + 4096);
    }

    method FreePage(address: u32)
      requires Valid()
      modifies `freeMemory, `usedMemory, bitmap.mem
      ensures Valid() && State() == ApplyPage(Free, old(State()), address)
      ensures OneByteChanged(old(bitmap.mem[..]), address)
    {
      var index := address / 4096;
      if !bitmap.Get(index) {
        return;
      }
      bitmap.Set(index, false);
      freeMemory := Wrap(freeMemory + 4096);
      usedMemory := Wrap(usedMemory - 4096);
    }

    method ReservePage(address: u32)
      requires Valid()
      modifies `reservedMemory, bitmap.mem
      ensures Valid() && State() == ApplyPage(Reserve, old(State()), address)
      ensures OneByteChanged(old(bitmap.mem[..]), address)
    {
      var index := address / 4096;
      if bitmap.Get(index) {
        return;
      }
      bitmap.Set(index, true);
      reservedMemory := Wrap(reservedMemory + 4096);
    }

    method UnreservePage(address: u32)
      requires Valid()
      modifies `reservedMemory, bitmap.mem
      ensures Valid() && State() == ApplyPage(Unreserve, old(State()), address)
      ensures OneByteChanged(old(bitmap.mem[..]), address)
    {
      var index := address / 4096;
      if !bitmap.Get(index) {
        return;
      }
      bitmap.Set(index, false);
      reservedMemory := Wrap(reservedMemory - 4096);
    }

    method LockPages(address: u32, pageCount: u32)
      requires Valid()
      modifies `freeMemory, `usedMemory, bitmap.mem
      ensures Valid() && State() == ApplyPages(Lock, old(State()), address, pageCount)
      ensures SameOutside(old(bitmap.mem[..]), bitmap.mem[..],
                          bitmap.buffer, bitmap.buffer + Extent(address, pageCount))
    {
      ghost var before, image, extent := State(), bitmap.mem[..], Extent(address, pageCount);
      for i := 0 to pageCount
        invariant Valid() && State() == ApplyPages(Lock, before, address, i)
        invariant SameOutside(image, bitmap.mem[..], bitmap.buffer, bitmap.buffer + extent)
      {
        ghost var last := bitmap.mem[..];
        var page := Wrap(address + Wrap(i * 4096));
        PageAddressInTwoSteps(address, i);
        OneMorePage(Lock, before, address, i);
        LockPage(page);
        PageWritten(image, last, address, pageCount, i, page, extent);
      }
    }

    method FreePages(address: u32, pageCount: u32)
      requires Valid()
      modifies `freeMemory, `usedMemory, bitmap.mem
      ensures Valid() && State() == ApplyPages(Free, old(State()), address, pageCount)
      ensures SameOutside(old(bitmap.mem[..]), bitmap.mem[..],
                          bitmap.buffer, bitmap.buffer + Extent(address, pageCount))
    {
      ghost var before, image, extent := State(), bitmap.mem[..], Extent(address, pageCount);
      for i := 0 to pageCount
        invariant Valid() && State() == ApplyPages(Free, before, address, i)
        invariant SameOutside(image, bitmap.mem[..], bitmap.buffer, bitmap.buffer + extent)
      {
        ghost var last := bitmap.mem[..];
        var page := Wrap(address + Wrap(i * 4096));
        PageAddressInTwoSteps(address, i);
        OneMorePage(Free, before, address, i);
        FreePage(page);
        PageWritten(image, last, address, pageCount, i, page, extent);
      }
    }

    method ReservePages(address: u32, pageCount: u32)
      requires Valid()
      modifies `reservedMemory, bitmap.mem
      ensures Valid() && State() == ApplyPages(Reserve, old(State()), address, pageCount)
      ensures SameOutside(old(bitmap.mem[..]), bitmap.mem[..],
                          bitmap.buffer, bitmap.buffer + Extent(address, pageCount))
    {
      ghost var before, image, extent := State(), bitmap.mem[..], Extent(address, pageCount);
      for i := 0 to pageCount
        invariant Valid() && State() == ApplyPages(Reserve, before, address, i)
        invariant SameOutside(image, bitmap.mem[..], bitmap.buffer, bitmap.buffer + extent)
      {
        ghost var last := bitmap.mem[..];
        var page := Wrap(address + Wrap(i * 4096));
        PageAddressInTwoSteps(address, i);
        OneMorePage(Reserve, before, address, i);
        ReservePage(page);
        PageWritten(image, last, address, pageCount, i, page, extent);
      }
    }

    method UnreservePages(address: u32, pageCount: u32)
      requires Valid()
      modifies `reservedMemory, bitmap.mem
      ensures Valid() && State() == ApplyPages(Unreserve, old(State()), address, pageCount)
      ensures SameOutside(old(bitmap.mem[..]), bitmap.mem[..],
                          bitmap.buffer, bitmap.buffer + Extent(address, pageCount))
    {
      ghost var before, image, extent := State(), bitmap.mem[..], Extent(address, pageCount);
      for i := 0 to pageCount
        invariant Valid() && State() == ApplyPages(Unreserve, before, address, i)
        invariant SameOutside(image, bitmap.mem[..], bitmap.buffer, bitmap.buffer + extent)
      {
        ghost var last := bitmap.mem[..];
        var page := Wrap(address + Wrap(i * 4096));
        PageAddressInTwoSteps(address, i);
        OneMorePage(Unreserve, before, address, i);
        UnreservePage(page);
        PageWritten(image, last, address, pageCount, i, page, extent);
      }
    }

    /** The lowest free page, or NULL; page 0 is returned as NULL too. */
    method RequestPage() returns (address: u32)
      requires Valid()
      modifies `freeMemory, `usedMemory, bitmap.mem
      ensures Valid() && State() == RequestPages(old(State()), Limit(), 1)
      ensures address == match FirstFit(old(State()).cells, Limit(), 1, 0) case None => 0 case Some(i) => i * 4096
      ensures SameOutside(old(bitmap.mem[..]), bitmap.mem[..], bitmap.buffer, bitmap.buffer + bitmap.size)
    {
      ghost var before := State();
      ghost var limit := Limit();
      var index: u32 := 0;
      while index < bitmap.size * 8
        invariant index <= limit == Limit()
        invariant State() == before && bitmap.mem[..] == old(bitmap.mem[..])
        invariant FirstFit(before.cells, limit, 1, 0) == FirstFit(before.cells, limit, 1, index)
      {
        if bitmap.Get(index) {
          SkipPastSetBit(before.cells, limit, 1, index, index);
          index := index + 1;
          continue;
        }
        assert Fits(before.cells, limit, 1, index);
        SinglePage(Lock, before, index * 4096);
        assert RequestPages(before, limit, 1) == ApplyPage(Lock, before, index * 4096);
        LockPage(index * 4096);
        return index * 4096;
      }
      return 0;
    }

    method RequestContiguous(pageCount: u32) returns (address: u32)
      requires Valid()
      modifies `freeMemory, `usedMemory, bitmap.mem
      ensures Valid() && State() == RequestPages(old(State()), Limit(), pageCount)
      ensures address == match FirstFit(old(State()).cells, Limit(), pageCount, 0)
                         case None => 0
                         case Some(i) => i * 4096
      ensures SameOutside(old(bitmap.mem[..]), bitmap.mem[..],
                          bitmap.buffer, bitmap.buffer + old(RequestExtent(pageCount)))
    {
      var run, _ := FindRun(bitmap, pageCount);
      if run.None? {
        return 0;
      }
      RunInExtent(run.value, pageCount);
      LockPages(run.value * 4096, pageCount);
      return run.value * 4096;
    }

    /** Points the bitmap at its buffer and clears the buffer's bytes. */
    method InitBitmap(bitmapSize: u32, bufferAddress: u32)
      requires bitmapSize <= 0x2_0000 && bufferAddress + 0x2_0000 <= bitmap.mem.Length <= 0x1_0000_0000
      modifies bitmap`size, bitmap`buffer, bitmap.mem
      ensures Valid() && bitmap.size == bitmapSize && bitmap.buffer == bufferAddress
      ensures bitmap.Cells()
           == AllClear(8 * bitmapSize) + old(BitsFrom(bitmap.mem[..], bufferAddress))[8 * bitmapSize..]
      ensures SameOutside(old(bitmap.mem[..]), bitmap.mem[..], bufferAddress, bufferAddress + bitmapSize)
    {
      bitmap.size := bitmapSize;
      bitmap.buffer := bufferAddress;
      for i := 0 to bitmapSize
        invariant bitmap.size == bitmapSize && bitmap.buffer == bufferAddress
        invariant forall a :: 0 <= a < bitmap.mem.Length ==>
                    bitmap.mem[a] == if bufferAddress <= a < bufferAddress + i then 0 else old(bitmap.mem[a])
      {
        bitmap.mem[bitmap.buffer + i] := 0;
      }
      BitsAfterZeroing(old(bitmap.mem[..]), bitmap.mem[..], bufferAddress, bitmapSize);
    }

    /** pfa_read_multiboot_memory_map. KERNEL_END comes in as an argument and goes out in the outcome. */
    method ReadMemoryMap(tag: MmapTag, kernelEnd: u32) returns (outcome: Boot)
      requires tag.WellFormed()
      requires kernelEnd + 0x2_0000 <= bitmap.mem.Length <= 0x1_0000_0000
      modifies this, bitmap`size, bitmap`buffer, bitmap.mem
      ensures old(initialized) ==>
                outcome == AlreadyInitialized && unchanged(this) && unchanged(bitmap) && unchanged(bitmap.mem)
      ensures !old(initialized) ==> (outcome.Panicked? <==> tag.kind != 6)
      ensures outcome.Panicked? ==>
        && freeMemory == Wrap(old(freeMemory) + AvailableLength(tag.entries))
        && unchanged(`reservedMemory) && unchanged(`usedMemory) && unchanged(`initialized)
        && unchanged(bitmap) && unchanged(bitmap.mem)
      ensures !old(initialized) && tag.kind == 6 ==>
        && outcome == Booted(Wrap(kernelEnd + bitmap.size))
        && initialized && Valid()
        && bitmap.size == BitmapBytes(Wrap(TotalLength(tag.entries))) && bitmap.buffer == kernelEnd
        && 32768 * (bitmap.size - 1) <= Wrap(TotalLength(tag.entries)) < 32768 * bitmap.size
        && State() == BootState(old(BitsFrom(bitmap.mem[..], kernelEnd)), tag, kernelEnd,
                                Frames([], Wrap(old(freeMemory) + AvailableLength(tag.entries)),
                                       old(reservedMemory), old(usedMemory)))
        && SameOutside(old(bitmap.mem[..]), bitmap.mem[..], kernelEnd, kernelEnd + BootExtent(tag, kernelEnd))
    {
      if initialized {
        return AlreadyInitialized;
      }
      var memorySize := SumLengths(tag);
      if tag.kind != TAG_TYPE_MMAP {
        return Panicked;
      }
      var bitmapSize := BitmapBytes(memorySize);
      BitmapBytesBounds(memorySize);
      SetUpBitmap(tag, bitmapSize, kernelEnd);
      initialized := true;
      return Booted(Wrap(kernelEnd + bitmapSize));
    }

    method SetUpBitmap(tag: MmapTag, bitmapSize: u32, kernelEnd: u32)
      requires tag.WellFormed() && bitmapSize == BitmapBytes(Wrap(TotalLength(tag.entries)))
      requires kernelEnd + 0x2_0000 <= bitmap.mem.Length <= 0x1_0000_0000
      modifies `freeMemory, `usedMemory, `reservedMemory, bitmap`size, bitmap`buffer, bitmap.mem
      ensures Valid() && bitmap.size == bitmapSize && bitmap.buffer == kernelEnd
      ensures State() == BootState(old(BitsFrom(bitmap.mem[..], kernelEnd)), tag, kernelEnd,
                                   Frames([], old(freeMemory), old(reservedMemory), old(usedMemory)))
      ensures SameOutside(old(bitmap.mem[..]), bitmap.mem[..], kernelEnd, kernelEnd + BootExtent(tag, kernelEnd))
    {
      ghost var extent, image := BootExtent(tag, kernelEnd), bitmap.mem[..];
      BitmapCoversMemory(Wrap(TotalLength(tag.entries)), 0);
      InitBitmap(bitmapSize, kernelEnd);
      ghost var cleared := bitmap.mem[..];
      LockPages(bitmap.buffer, NumPages(bitmap.size));
      ghost var locked := bitmap.mem[..];
      SameOutsideBoth(image, cleared, locked, kernelEnd, kernelEnd + bitmapSize,
                      kernelEnd, kernelEnd + Extent(kernelEnd, NumPages(bitmapSize)), kernelEnd, kernelEnd + extent);
      ReserveUnavailable(tag);
      SameOutsideBoth(image, locked, bitmap.mem[..], kernelEnd, kernelEnd + extent,
                      kernelEnd, kernelEnd + EntriesExtent(tag), kernelEnd, kernelEnd + extent);
    }

    /** The first loop over the memory map. */
    method SumLengths(tag: MmapTag) returns (memorySize: u32)
      requires tag.WellFormed()
      modifies `freeMemory
      ensures memorySize == Wrap(TotalLength(tag.entries))
      ensures freeMemory == Wrap(old(freeMemory) + AvailableLength(tag.entries))
    {
      memorySize := 0;
      var i := 0;
      EntrySteps(tag, 0);
      var mmap: u32 := tag.address + 16;
      while mmap < tag.address + tag.size
        invariant i <= |tag.entries| && mmap == tag.EntryAddress(i)
        invariant memorySize == Wrap(TotalLength(tag.entries[..i]))
        invariant freeMemory == Wrap(old(freeMemory) + AvailableLength(tag.entries[..i]))
        decreases |tag.entries| - i
      {
        EntrySteps(tag, i);
        var entry := tag.entries[i];
        TotalGrows(tag.entries, i, memorySize);
        AvailableGrows(tag.entries, i, old(freeMemory), freeMemory);
        memorySize := Wrap(memorySize + Wrap(entry.length));
        if entry.kind == MEMORY_AVAILABLE {
          freeMemory := Wrap(freeMemory + Wrap(entry.length));
        }
        mmap := mmap + tag.entrySize;
        i := i + 1;
      }
      EntrySteps(tag, i);
      assert tag.entries[..i] == tag.entries;
    }

    /** The second loop over the memory map. */
    method ReserveUnavailable(tag: MmapTag)
      requires Valid() && tag.WellFormed()
      modifies `reservedMemory, bitmap.mem
      ensures Valid() && State() == ReserveEntries(old(State()), tag, |tag.entries|)
      ensures SameOutside(old(bitmap.mem[..]), bitmap.mem[..], bitmap.buffer, bitmap.buffer + EntriesExtent(tag))
    {
      ghost var before, image, extent := State(), bitmap.mem[..], EntriesExtent(tag);
      var i := 0;
      EntrySteps(tag, 0);
      var mmap: u32 := tag.address + 16;
      while mmap < tag.address + tag.size
        invariant i <= |tag.entries| && mmap == tag.EntryAddress(i)
        invariant Valid() && State() == ReserveEntries(before, tag, i)
        invariant SameOutside(image, bitmap.mem[..], bitmap.buffer, bitmap.buffer + extent)
        decreases |tag.entries| - i
      {
        ghost var last := bitmap.mem[..];
        EntrySteps(tag, i);
        ReserveEntry(tag, i, mmap);
        SameOutsideBoth(image, last, bitmap.mem[..], bitmap.buffer, bitmap.buffer + extent,
                        bitmap.buffer, bitmap.buffer + extent, bitmap.buffer, bitmap.buffer + extent);
        mmap := mmap + tag.entrySize;
        i := i + 1;
      }
      EntrySteps(tag, i);
    }

    /** The body of the second loop. */
    method ReserveEntry(tag: MmapTag, i: nat, mmap: u32)
      requires Valid() && tag.WellFormed() && i < |tag.entries| && mmap == tag.EntryAddress(i)
      modifies `reservedMemory, bitmap.mem
      ensures Valid()
      ensures State() == if tag.entries[i].kind == MEMORY_AVAILABLE then old(State())
                         else ApplyPages(Reserve, old(State()), mmap, NumPages(Wrap(tag.entries[i].length)))
      ensures SameOutside(old(bitmap.mem[..]), bitmap.mem[..], bitmap.buffer, bitmap.buffer + EntriesExtent(tag))
    {
      var entry := tag.entries[i];
      if entry.kind != MEMORY_AVAILABLE {
        EntryInExtent(tag, i);
        ReservePages(mmap, NumPages(Wrap(entry.length)));
      }
    }

    /** How many bytes from the buffer on the second loop may write to. */
    ghost function EntriesExtent(tag: MmapTag): (bytes: nat)
      requires tag.WellFormed()
      reads this, bitmap
    {
      if EntriesCovered(tag, |tag.entries|, Limit()) then bitmap.size else 0x2_0000
    }

    lemma EntryInExtent(tag: MmapTag, i: nat)
      requires Valid() && tag.WellFormed() && i < |tag.entries| && tag.entries[i].kind != MEMORY_AVAILABLE
      ensures tag.EntryAddress(i) < 0x1_0000_0000
      ensures Extent(tag.EntryAddress(i), NumPages(Wrap(tag.entries[i].length))) <= EntriesExtent(tag)
    {
      EntrySteps(tag, i);
      if EntriesCovered(tag, |tag.entries|, Limit()) {
        assert EntryCovered(tag, i, Limit());
      }
    }
  }
}
