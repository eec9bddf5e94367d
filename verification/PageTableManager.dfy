/** kernel/arch/i386/paging/page_table_manager.c, and the two requests of page_frame_allocator.c that
    also map what they hand out. */
module PageTableManagement {
  import opened Words
  import opened Bytes
  import opened PhysicalMemory
  import opened RunSearch
  import opened Frames
  import opened FrameAllocation
  import opened PageTables

  const DIRECTORY_BYTES: u32 := 8196
  const TABLE_BYTES: u32 := 4096

  /** The next page boundary. */
  ghost function RoundUp(x: nat): nat {
    if x == 0 then 0 else if x <= 4096 then 4096 else 4096 + RoundUp(x - 4096)
  }

  /** What the code adds leads to it. */
  lemma {:induction false} RoundUpIs(x: nat)
    ensures RoundUp(x) == (if x % 4096 != 0 then x + (4096 - x % 4096) else x)
  {
    if x > 4096 {
      RoundUpIs(x - 4096);
      SameRemainder(x);
    }
  }

  lemma SameRemainder(x: nat)
    requires x >= 4096
    ensures (x - 4096) % 4096 == x % 4096
  {
  }

  /** The calls that map n pages from start on to themselves. */
  ghost function RangeMappings(start: u32, n: nat): seq<Mapping> {
    seq(n, i requires 0 <= i < n => Mapping(PageAddress(start, i), PageAddress(start, i), true, true))
  }

  lemma OneMoreMapping(entries: seq<u32>, start: u32, n: nat)
    requires |entries| == PAGES
    ensures MapAll(entries, RangeMappings(start, n + 1))
         == MapOne(MapAll(entries, RangeMappings(start, n)),
                   Mapping(PageAddress(start, n), PageAddress(start, n), true, true))
  {
    assert RangeMappings(start, n + 1)[..n] == RangeMappings(start, n);
  }

  /** Pages mapped by a request are translated to themselves, provided earlier mappings were identities. */
  lemma RequestedPagesMapped(mem: seq<u32>, dir: nat, was: seq<u32>, start: u32, n: nat, linear: u32)
    requires |was| == PAGES && Identity(was)
    requires Complete(mem, dir) && Entries(mem, dir) == MapAll(was, RangeMappings(start, n))
    requires Visits(start, n, linear / 4096)
    ensures var t := HardwareWalk(mem, 4096 * dir + 4096, linear);
      t.Present? && t.physical == linear && !t.user
    ensures Identity(Entries(mem, dir))
  {
    var calls := RangeMappings(start, n);
    IdentityKept(was, calls);
    var i :| 0 <= i < n && PageAddress(start, i) / 4096 == linear / 4096;
    MappedIsNonzero(was, calls, linear / 4096, i);
    IdentityWalk(mem, dir, linear);
  }

  lemma {:induction false} MappedIsNonzero(entries: seq<u32>, calls: seq<Mapping>, page: nat, k: nat)
    requires |entries| == PAGES && page < PAGES
    requires k < |calls| && calls[k].address / 4096 == page
    ensures MapAll(entries, calls)[page] != 0
  {
    var last := |calls| - 1;
    var c := calls[last];
    FlagsBits(c.physical, c.isKernel, c.isWritable);
    if k < last {
      MappedIsNonzero(entries, calls[..last], page, k);
    }
  }

  /** The directory with its first n tables in place and empty, and no others. */
  ghost predicate FirstTables(mem: seq<u32>, dir: nat, n: nat) {
    var base := 1024 * dir;
    && n <= 1024 && base + TABLES + PAGES <= |mem| <= 0x4000_0000
    && (forall w :: base <= w < base + n ==> mem[w] == TableEntry(dir, w - base))
    && (forall w :: base + n <= w < base + 1024 ==> mem[w] == 0)
    && (forall w :: base + PHYS_ENTRIES <= w < base + PHYS_ENTRIES + n ==>
          mem[w] == TableEntry(dir, w - base - PHYS_ENTRIES))
    && mem[base + PHYS_ADDR] == 4096 * dir
    && (forall w :: base + TABLES <= w < base + TABLES + 1024 * n ==> mem[w] == 0)
  }

  lemma AlignedEntry(frame: nat)
    requires frame < PAGES
    ensures Or3(Or1(4096 * frame)) == 4096 * frame + 3
  {
  }

  /** What the words of memory are after table n has been placed behind the first n. */
  ghost predicate TableMade(before: seq<u32>, after: seq<u32>, dir: nat, n: nat) {
    && |after| == |before|
    && forall w :: 0 <= w < |before| ==>
         after[w] == (if w == 1024 * dir + n || w == 1024 * dir + PHYS_ENTRIES + n then TableEntry(dir, n)
                      else if 1024 * (dir + 3 + n) <= w < 1024 * (dir + 4 + n) then 0
                      else before[w])
  }

  lemma TableWritten(before: seq<u32>, zeroed: seq<u32>, dir: nat, n: nat)
    requires n < 1024 && 1024 * (dir + 4 + n) <= |before| && 4096 * (dir + 4 + n) <= 0x1_0000_0000
    requires ZeroedWords(before, zeroed, 1024 * (dir + 3 + n), 1024)
    ensures TableMade(before, zeroed[1024 * dir + n := TableEntry(dir, n)]
                                    [1024 * dir + PHYS_ENTRIES + n := TableEntry(dir, n)],
                      dir, n)
  {
  }

  /** A new table beyond all the others keeps those that are there. */
  lemma TableAdded(before: seq<u32>, after: seq<u32>, dir: nat, n: nat)
    requires n < 1024 && FirstTables(before, dir, n) && TableMade(before, after, dir, n)
    ensures FirstTables(after, dir, n + 1)
  {
  }

  lemma EntryEmpty(mem: seq<u32>, dir: nat, n: nat)
    requires n < 1024 && FirstTables(mem, dir, n)
    ensures mem[1024 * dir + n] == 0
  {
  }

  lemma AllTablesComplete(mem: seq<u32>, dir: nat)
    requires FirstTables(mem, dir, 1024)
    ensures Complete(mem, dir) && forall page :: 0 <= page < PAGES ==> Entries(mem, dir)[page] == 0
  {
    forall d | 0 <= d < 1024
      ensures EntrySound(mem, dir, d) && EntryFilled(mem, dir, d)
    {
      assert mem[1024 * dir + d] == TableEntry(dir, d) == mem[1024 * dir + PHYS_ENTRIES + d];
    }
  }

  /** Pages below end are mapped to themselves, writable, for the kernel only; nothing else is mapped. */
  ghost predicate IdentityBelow(entries: seq<u32>, end: nat)
    requires |entries| == PAGES
  {
    forall page :: 0 <= page < PAGES ==> entries[page] == if page * 4096 < end then page * 4096 + 3 else 0
  }

  ghost predicate MappedBelow(mem: seq<u32>, dir: nat, end: nat) {
    Complete(mem, dir) && IdentityBelow(Entries(mem, dir), end)
  }

  lemma IdentityGrows(entries: seq<u32>, address: u32)
    requires |entries| == PAGES && address % 4096 == 0 && IdentityBelow(entries, address)
    ensures entries[address / 4096] == 0 && Flags(address, true, true) == address + 3
    ensures IdentityBelow(entries[address / 4096 := address + 3], address + 4096)
  {
    AlignedFlags(address / 4096);
  }

  /** One round of the loop that maps the kernel. */
  lemma KernelPageMapped(mem: seq<u32>, dir: nat, address: u32)
    requires MappedBelow(mem, dir, address) && address % 4096 == 0
    ensures mem[1024 * dir + address / 0x40_0000] != 0 && mem[EntryIndex(dir, address)] == 0
    ensures MappedBelow(mem[EntryIndex(dir, address) := Flags(address, true, true)], dir, address + 4096)
  {
    IdentityGrows(Entries(mem, dir), address);
    assert Entries(mem, dir)[address / 4096] == mem[EntryIndex(dir, address)];
    MapOneWritten(mem, dir, Mapping(address, address, true, true));
  }

  lemma NextPage(address: nat, end: nat)
    requires address % 4096 == 0 && end % 4096 == 0 && address < end
    ensures address + 4096 <= end && (address + 4096) % 4096 == 0
  {
  }

  /** Directory and tables end at a page boundary. */
  lemma EndAligned(dir: nat, end: nat)
    requires end == 4096 * dir + 4 * (TABLES + PAGES) && end < 0x1_0000_0000
    ensures end % 4096 == 0 && end + 4096 <= 0x1_0000_0000
  {
    assert end == 4096 * (dir + 3 + 1024);
  }

  lemma AlignedFlags(frame: nat)
    requires frame < PAGES
    ensures Flags(4096 * frame, true, true) == 4096 * frame + 3
  {
  }

  /** The hardware finds exactly the addresses below end: each is translated to itself, writable and for
      the supervisor only. */
  ghost predicate HardwareSeesIdentityBelow(mem: seq<u32>, cr3: u32, end: nat) {
    forall linear: u32 ::
      HardwareWalk(mem, cr3, linear) == if linear < end then Present(linear, true, false) else Absent
  }

  lemma WalkAfterInitialize(mem: seq<u32>, dir: nat, end: nat, frames: nat, cr3: u32)
    requires MappedBelow(mem, dir, end) && end == 4096 * frames && cr3 == 4096 * dir + 4096
    ensures HardwareSeesIdentityBelow(mem, cr3, end)
  {
    assert end % 4096 == 0;
    forall linear: u32
      ensures HardwareWalk(mem, cr3, linear) == if linear < end then Present(linear, true, false) else Absent
    {
      WalkBelow(mem, dir, end, linear);
    }
  }

  lemma WalkBelow(mem: seq<u32>, dir: nat, end: nat, linear: u32)
    requires MappedBelow(mem, dir, end) && end % 4096 == 0
    ensures HardwareWalk(mem, 4096 * dir + 4096, linear)
         == if linear < end then Present(linear, true, false) else Absent
  {
    WalkReadsEntries(mem, dir, linear);
    DecodeBelow(Entries(mem, dir), end, linear);
  }

  lemma DecodeBelow(entries: seq<u32>, end: nat, linear: u32)
    requires |entries| == PAGES && IdentityBelow(entries, end) && end % 4096 == 0
    ensures Decode(entries[linear / 4096], linear) == if linear < end then Present(linear, true, false) else Absent
  {
    var page := linear / 4096;
    assert entries[page] == if page * 4096 < end then page * 4096 + 3 else 0;
    assert page * 4096 < end <==> linear < end;
    DecodeIdentity(page, linear);
  }

  lemma DecodeIdentity(page: nat, linear: u32)
    requires page == linear / 4096
    ensures Decode(page * 4096 + 3, linear) == Present(linear, true, false)
  {
    LowBits(page * 4096 + 3, page * 512, 3);
    assert page * 4096 + linear % 4096 == linear;
  }

  /** The counted pages are all of the kernel, or the others were locked before. */
  ghost predicate KernelCovered(was: Frames, start: nat, k: nat)
    requires start + k <= 0x10_0000 <= |was.cells| && k * 4096 < 0x1_0000_0000
  {
    k <= 2049 || forall p :: start + NumPages(k * 4096) <= p < start + k ==> was.cells[p]
  }

  /** Locking NUM_PAGES of a k-page kernel leaves the whole kernel locked exactly when no page is left
      uncounted (k <= 2049), or the uncounted ones were locked before. */
  lemma KernelLockedExactlyWhen(s: Frames, start: nat, k: nat)
    requires Addressable(s) && start < start + k <= 0x10_0000 && k * 4096 < 0x1_0000_0000
    ensures var t := ApplyPages(Lock, s, start * 4096, NumPages(k * 4096));
      (forall p :: start <= p < start + k ==> t.cells[p])
      <==> KernelCovered(s, start, k)
  {
    var n := NumPages(k * 4096);
    var t := ApplyPages(Lock, s, start * 4096, n);
    NumPagesCoversExactlyWhen(k);
    PagesCells(Lock, s, start * 4096, n);
    forall p | start <= p < start + k
      ensures t.cells[p] <==> p < start + n || s.cells[p]
    {
      VisitsPrefix(start, n, k, p);
    }
  }

  /** The last of 2050 pages is not locked. */
  lemma LastKernelPageFree(s: Frames)
    requires Addressable(s) && !s.cells[256 + 2049]
    ensures !ApplyPages(Lock, s, 256 * 4096, NumPages(2050 * 4096)).cells[256 + 2049]
  {
    assert NumPages(2050 * 4096) == 2049;
    PagesCells(Lock, s, 256 * 4096, 2049);
    VisitsRange(256, 2049, 256 + 2049);
  }

  /** Among the pages of a block in the address space, a range operation visits the first n. */
  lemma VisitsPrefix(start: nat, n: nat, k: nat, page: nat)
    requires start <= page < start + k <= 0x10_0000 && n <= k + 1
    ensures Visits(start * 4096, n, page) <==> page < start + n
  {
    if page < start + n {
      assert PageAddress(start * 4096, page - start) / 4096 == page;
    } else {
      VisitsRange(start, n, page);
    }
  }

  /** booted is a state that ptm_initialize leaves: of its bits, the first ones are those that locking the
      kernel leaves. */
  ghost predicate KernelBooted(booted: Frames, was: Frames, bits: nat, limit: nat, start: nat, k: nat) {
    && Addressable(was) && Addressable(booted) && 0 < k && start + k <= limit <= 0x10_0000
    && k * 4096 < 0x1_0000_0000 && limit <= bits && bits <= |booted.cells| && bits <= |was.cells|
    && FirstBits(booted, bits) == FirstBits(ApplyPages(Lock, was, start * 4096, NumPages(k * 4096)), bits)
  }

  /** The kernel holds its own block, which is all locked. */
  lemma KernelHolds(booted: Frames, was: Frames, bits: nat, limit: nat, start: nat, k: nat)
    requires KernelBooted(booted, was, bits, limit, start, k) && KernelCovered(was, start, k)
    ensures Separated(Client(booted, [Block(start, k)]), limit)
  {
    CoveredIsLocked(was, start, k, limit);
    LockedByFirstBits(booted, ApplyPages(Lock, was, start * 4096, NumPages(k * 4096)), bits, Block(start, k), limit);
  }

  lemma CoveredIsLocked(was: Frames, start: nat, k: nat, limit: nat)
    requires Addressable(was) && 0 < k && start + k <= limit <= 0x10_0000 && k * 4096 < 0x1_0000_0000
    requires KernelCovered(was, start, k)
    ensures Locked(Block(start, k), ApplyPages(Lock, was, start * 4096, NumPages(k * 4096)).cells, limit)
  {
    KernelLockedExactlyWhen(was, start, k);
    assert forall p :: start <= p < start + k ==> ApplyPages(Lock, was, start * 4096, NumPages(k * 4096)).cells[p];
  }

  lemma LockedByFirstBits(s: Frames, t: Frames, bits: nat, b: Block, limit: nat)
    requires limit <= bits <= |s.cells| && bits <= |t.cells| && FirstBits(s, bits) == FirstBits(t, bits)
    requires Locked(b, t.cells, limit)
    ensures Locked(b, s.cells, limit)
  {
    forall frame | Has(b, frame)
      ensures s.cells[frame]
    {
      assert s.cells[frame] == FirstBits(s, bits).cells[frame] == FirstBits(t, bits).cells[frame] == t.cells[frame];
    }
  }

  /** The kernel starts and ends at page boundaries, and its pages have bits. */
  ghost predicate OnPages(kernelStart: u32, kernelEnd: nat, limit: nat) {
    kernelStart % 4096 == 0 && kernelEnd % 4096 == 0 && kernelStart < kernelEnd <= 4096 * limit
  }

  /** A kernel of whole pages that have bits is booted, and unless NUM_PAGES leaves out a free page of it, the
      bit of each of its pages is set. */
  ghost predicate LocksKernel(now: Frames, was: Frames, bits: nat, limit: nat, kernelStart: u32, kernelEnd: nat) {
    OnPages(kernelStart, kernelEnd, limit) ==>
      var start, k := kernelStart / 4096, (kernelEnd - kernelStart) / 4096;
      && KernelBooted(now, was, bits, limit, start, k)
      && (KernelCovered(was, start, k) ==> forall p :: kernelStart <= 4096 * p < kernelEnd ==> now.cells[p])
  }

  lemma WholePages(kernelStart: u32, kernelEnd: nat, limit: nat, start: nat, k: nat)
    requires OnPages(kernelStart, kernelEnd, limit) && limit <= 0x10_0000
    requires start == kernelStart / 4096 && k == (kernelEnd - kernelStart) / 4096
    ensures kernelStart == start * 4096 && kernelEnd == (start + k) * 4096 && 0 < k && start + k <= limit
    ensures k * 4096 < 0x1_0000_0000 ==> Wrap(kernelEnd - kernelStart) == k * 4096
  {
    if k * 4096 < 0x1_0000_0000 {
      WrapSmall(k * 4096);
    }
  }

  lemma BootedKernelLocked(now: Frames, was: Frames, bits: nat, limit: nat, start: nat, k: nat)
    requires KernelBooted(now, was, bits, limit, start, k) && KernelCovered(was, start, k)
    ensures forall p :: start <= p < start + k ==> now.cells[p]
  {
    KernelHolds(now, was, bits, limit, start, k);
    assert Locked(Block(start, k), now.cells, limit);
    forall p | start <= p < start + k
      ensures now.cells[p]
    {
      assert Has(Block(start, k), p);
    }
  }

  lemma KernelIsLocked(now: Frames, was: Frames, bits: nat, limit: nat, kernelStart: u32, kernelEnd: u32, pages: u32)
    requires Addressable(was) && Addressable(now) && limit <= bits <= |now.cells| && bits <= |was.cells|
    requires limit <= 0x10_0000 && pages == NumPages(Wrap(kernelEnd - kernelStart))
    requires FirstBits(now, bits) == FirstBits(ApplyPages(Lock, was, kernelStart, pages), bits)
    ensures LocksKernel(now, was, bits, limit, kernelStart, kernelEnd)
  {
    if OnPages(kernelStart, kernelEnd, limit) {
      var start, k := kernelStart / 4096, (kernelEnd - kernelStart) / 4096;
      WholePages(kernelStart, kernelEnd, limit, start, k);
      assert KernelBooted(now, was, bits, limit, start, k);
      if KernelCovered(was, start, k) {
        BootedKernelLocked(now, was, bits, limit, start, k);
      }
    }
  }

  /** Once ptm_initialize has locked the kernel, no run of requests and releases, whatever is written behind
      the bitmap in between, ever hands out one of its frames, and the frames handed out stay disjoint. */
  lemma KernelNeverHandedOut(booted: Frames, was: Frames, bits: nat, limit: nat, start: nat, k: nat,
                             actions: seq<Action>)
    requires KernelBooted(booted, was, bits, limit, start, k) && KernelCovered(was, start, k)
    requires AllAllowed(Client(booted, [Block(start, k)]), limit, actions)
    ensures var d := ActAll(Client(booted, [Block(start, k)]), limit, actions);
      && Separated(d, limit) && d.held != [] && d.held[0] == Block(start, k)
      && forall i :: 1 <= i < |d.held| ==> Disjoint(d.held[0], d.held[i])
  {
    KernelHolds(booted, was, bits, limit, start, k);
    FramesStaySeparated(Client(booted, [Block(start, k)]), limit, actions);
  }

  /** The word that ptm_map_addr computes is the entry of its address. */
  lemma EntryFound(dir: nat, address: u32, pde: u32)
    requires pde == TableEntry(dir, address / 0x40_0000)
    ensures pde / 4096 * 4096 / 4 + address / 4096 % 1024 == EntryIndex(dir, address)
  {
    EntryBits(dir + 3 + address / 0x40_0000);
    TableArithmetic(dir, address / 0x40_0000, address);
  }

  lemma EntryInTables(dir: nat, address: u32)
    ensures 1024 * dir + TABLES <= EntryIndex(dir, address) < 1024 * dir + TABLES + PAGES
  {
  }

  /** A page frame number in words. */
  lemma FrameInWords(pd: nat, dir: nat)
    requires pd == 4096 * dir
    ensures pd / 4 == 1024 * dir && pd / 4096 == dir
  {
  }

  lemma RoundUpIsFrame(x: u32) returns (dir: nat)
    ensures RoundUp(x) == 4096 * dir && x <= RoundUp(x)
  {
    RoundUpIs(x);
    dir := RoundUp(x) / 4096;
  }

  /** Bytes written outside directory and tables leave the map as it is. */
  lemma TablesKept(before: seq<byte>, after: seq<byte>, from: nat, to: nat, dir: nat, end: nat)
    requires SameOutside(before, after, from, to)
    requires to <= 4096 * dir || 4096 * dir + 4 * (TABLES + PAGES) <= from
    requires MappedBelow(WordsOf(before), dir, end)
    ensures MappedBelow(WordsOf(after), dir, end)
    ensures WordsOf(after)[1024 * dir + PHYS_ADDR] == WordsOf(before)[1024 * dir + PHYS_ADDR]
  {
    SameWords(before, after, from, to, 1024 * dir, 1024 * dir + TABLES + PAGES);
    SameTables(WordsOf(before), WordsOf(after), dir);
  }

  class PageTableManager {
    const pfa: FrameAllocator
    const mem: array<byte>
    var kernelStart: u32
    var kernelEnd: u32
    var pd: u32
    ghost var dir: nat  // the page frame number of the directory, pd / 4096

    constructor (pfa: FrameAllocator, kernelStart: u32, kernelEnd: u32)
      ensures this.pfa == pfa && OneMemory()
      ensures this.kernelStart == kernelStart && this.kernelEnd == kernelEnd
    {
      this.pfa := pfa;
      this.mem := pfa.bitmap.mem;
      this.kernelStart := kernelStart;
      this.kernelEnd := kernelEnd;
      this.pd := 0;
      this.dir := 0;
    }

    /** The page tables and the bitmap of the frame allocator lie in the same physical memory. */
    ghost predicate OneMemory() {
      mem == pfa.bitmap.mem
    }

    /** Physical memory by words. */
    ghost function Image(): seq<u32>
      reads mem
    {
      WordsOf(mem[..])
    }

    /** Maps an address that is not mapped yet. False stands for the abort() on an empty directory entry. */
    method MapAddr(address: u32, physical: u32, isKernel: bool, isWritable: bool) returns (ok: bool)
      requires pd == 4096 * dir && Built(Image(), dir)
      modifies mem
      ensures ok == (old(Image()[1024 * dir + address / 0x40_0000]) != 0)
      ensures Built(Image(), dir)
      ensures Image() ==
        if ok && old(Image()[EntryIndex(dir, address)]) == 0
        then old(Image())[EntryIndex(dir, address) := Flags(physical, isKernel, isWritable)]
        else old(Image())
      ensures SameOutside(old(mem[..]), mem[..], pd + 4 * TABLES, pd + 4 * (TABLES + PAGES))
    {
      var pdeIndex := address / 0x40_0000;
      FrameInWords(pd, dir);
      assert EntrySound(Image(), dir, pdeIndex);
      var pde := LoadWord(mem, pd / 4 + pdeIndex);
      if pde == 0 {
        return false;
      }
      var pageTable := pde / 4096 * 4096;
      var pteIndex := address / 4096 % 1024;
      EntryFound(dir, address, pde);
      EntryInTables(dir, address);
      EntryWritten(Image(), dir, address, Flags(physical, isKernel, isWritable));
      WriteEntry(pageTable / 4 + pteIndex, physical, isKernel, isWritable);
      return true;
    }

    /** Writes a table entry unless there is one. */
    method WriteEntry(w: nat, physical: u32, isKernel: bool, isWritable: bool)
      requires 4 * w + 4 <= mem.Length
      modifies mem
      ensures w < old(|Image()|)
      ensures Image()
           == if old(Image()[w]) == 0 then old(Image())[w := Flags(physical, isKernel, isWritable)] else old(Image())
      ensures SameOutside(old(mem[..]), mem[..], 4 * w, 4 * w + 4)
    {
      var pte := LoadWord(mem, w);
      if pte == 0 {
        pte := physical;
        pte := Or1(pte);
        if isWritable {
          pte := Or3(pte);
        }
        if !isKernel {
          pte := Or5(pte);
        }
        StoreWord(mem, w, pte);
      }
    }

    /** The first half of ptm_initialize: the directory and 1024 empty tables, one after the other. */
    method BuildDirectory(ghost top: nat)
      requires top == RoundUp(kernelEnd) && mem.Length <= 0x1_0000_0000
      requires top + 4 * (TABLES + PAGES) < 0x1_0000_0000 && top + 4 * (TABLES + PAGES) <= mem.Length
      modifies this`kernelEnd, this`pd, this`dir, mem
      ensures pd == 4096 * dir == top && kernelEnd == pd + 4 * (TABLES + PAGES)
      ensures FirstTables(Image(), dir, 1024)
      ensures SameOutside(old(mem[..]), mem[..], pd, kernelEnd)
    {
      ghost var bytes := mem[..];
      PlaceDirectory(top);
      ghost var placed := mem[..];
      AddTables();
      SameOutsideBoth(bytes, placed, mem[..], pd, pd + 4 * TABLES, pd, kernelEnd, pd, kernelEnd);
    }

    /** The loop that creates the tables. */
    method AddTables()
      requires pd == 4096 * dir && FirstTables(Image(), dir, 0) && kernelEnd == 4096 * (dir + 3)
      requires pd + 4 * (TABLES + PAGES) < 0x1_0000_0000 && pd + 4 * (TABLES + PAGES) <= mem.Length
      modifies this`kernelEnd, mem
      ensures kernelEnd == pd + 4 * (TABLES + PAGES) && FirstTables(Image(), dir, 1024)
      ensures SameOutside(old(mem[..]), mem[..], pd, kernelEnd)
    {
      ghost var bytes, end: nat := mem[..], pd + 4 * (TABLES + PAGES);
      for index: u32 := 0 to 1024
        invariant kernelEnd == 4096 * (dir + 3 + index) && FirstTables(Image(), dir, index)
        invariant SameOutside(bytes, mem[..], pd, end)
      {
        ghost var last := mem[..];
        AddTable(index);
        SameOutsideAgain(bytes, last, mem[..], pd, end);
      }
    }

    method PlaceDirectory(ghost top: nat)
      requires top == RoundUp(kernelEnd) && mem.Length <= 0x1_0000_0000
      requires top + 4 * (TABLES + PAGES) < 0x1_0000_0000 && top + 4 * (TABLES + PAGES) <= mem.Length
      modifies this`kernelEnd, this`pd, this`dir, mem
      ensures pd == 4096 * dir == top && kernelEnd == pd + 4 * TABLES
      ensures FirstTables(Image(), dir, 0)
      ensures SameOutside(old(mem[..]), mem[..], pd, kernelEnd)
    {
      ghost var frame := RoundUpIsFrame(kernelEnd);
      RoundUpIs(kernelEnd);
      if kernelEnd % 4096 != 0 {
        kernelEnd := kernelEnd + (4096 - kernelEnd % 4096);
      }
      var pdPages := NumPages(DIRECTORY_BYTES);
      pd := kernelEnd;
      dir := frame;
      kernelEnd := kernelEnd + pdPages * 4096;
      FrameInWords(pd, dir);
      ZeroWords(mem, pd / 4, pdPages * 4096 / 4);
      StoreWord(mem, pd / 4 + PHYS_ADDR, pd);
    }

    /** The body of the loop that creates the tables. */
    method AddTable(index: u32)
      requires index < 1024 && pd == 4096 * dir && FirstTables(Image(), dir, index)
      requires kernelEnd == 4096 * (dir + 3 + index)
      requires pd + 4 * (TABLES + PAGES) < 0x1_0000_0000 && pd + 4 * (TABLES + PAGES) <= mem.Length
      modifies this`kernelEnd, mem
      ensures kernelEnd == old(kernelEnd) + 4096
      ensures TableMade(old(Image()), Image(), dir, index) && FirstTables(Image(), dir, index + 1)
      ensures SameOutside(old(mem[..]), mem[..], pd, pd + 4 * (TABLES + PAGES))
    {
      ghost var before := Image();
      FrameInWords(pd, dir);
      EntryEmpty(before, dir, index);
      var pde := LoadWord(mem, pd / 4 + index);
      if pde == 0 {
        NewTable(index);
      }
      TableAdded(before, Image(), dir, index);
    }

    /** Places an empty table at KERNEL_END and enters it. */
    method NewTable(index: u32)
      requires index < 1024 && pd == 4096 * dir && kernelEnd == 4096 * (dir + 3 + index)
      requires pd + 4 * (TABLES + PAGES) < 0x1_0000_0000 && pd + 4 * (TABLES + PAGES) <= mem.Length
      modifies this`kernelEnd, mem
      ensures kernelEnd == old(kernelEnd) + 4096
      ensures TableMade(old(Image()), Image(), dir, index)
      ensures SameOutside(old(mem[..]), mem[..], pd, pd + 4 * (TABLES + PAGES))
    {
      var tablePages := NumPages(TABLE_BYTES);
      var pageTable := kernelEnd;
      FrameInWords(pageTable, dir + 3 + index);
      kernelEnd := kernelEnd + tablePages * 4096;
      ghost var before, bytes := Image(), mem[..];
      ZeroWords(mem, pageTable / 4, tablePages * 4096 / 4);
      ghost var cleared := mem[..];
      TableWritten(before, Image(), dir, index);
      EnterTable(index, pageTable);
      SameOutsideBoth(bytes, cleared, mem[..], pageTable, pageTable + 4096, pd, pd + 4 * TABLES,
                      pd, pd + 4 * (TABLES + PAGES));
    }

    /** Enters a table into the directory and into its physical copy. */
    method EnterTable(index: u32, pageTable: u32)
      requires index < 1024 && pd == 4096 * dir && pageTable == 4096 * (dir + 3 + index)
      requires pd + 4 * TABLES <= mem.Length
      modifies mem
      ensures 1024 * dir + PHYS_ENTRIES + index < old(|Image()|)
      ensures Image() == old(Image())[1024 * dir + index := TableEntry(dir, index)]
                                     [1024 * dir + PHYS_ENTRIES + index := TableEntry(dir, index)]
      ensures SameOutside(old(mem[..]), mem[..], pd, pd + 4 * TABLES)
    {
      FrameInWords(pd, dir);
      var pde := pageTable;
      pde := Or1(pde);
      pde := Or3(pde);
      AlignedEntry(dir + 3 + index);
      StoreWord(mem, pd / 4 + index, pde);
      StoreWord(mem, pd / 4 + PHYS_ENTRIES + index, pde);
    }

    /** The second loop of ptm_initialize. */
    method MapKernel()
      requires pd == 4096 * dir && FirstTables(Image(), dir, 1024)
      requires kernelEnd % 4096 == 0 && kernelEnd + 4096 <= 0x1_0000_0000
      modifies mem
      ensures MappedBelow(Image(), dir, kernelEnd)
      ensures SameOutside(old(mem[..]), mem[..], pd + 4 * TABLES, pd + 4 * (TABLES + PAGES))
    {
      ghost var bytes := mem[..];
      AllTablesComplete(Image(), dir);
      var address: u32 := 0;
      while address < kernelEnd
        invariant address % 4096 == 0 && address <= kernelEnd
        invariant MappedBelow(Image(), dir, address)
        invariant SameOutside(bytes, mem[..], pd + 4 * TABLES, pd + 4 * (TABLES + PAGES))
      {
        NextPage(address, kernelEnd);
        MapNext(address);
        address := address + 4096;
      }
    }

    /** Its body. */
    method MapNext(address: u32)
      requires pd == 4096 * dir && MappedBelow(Image(), dir, address) && address % 4096 == 0
      modifies mem
      ensures MappedBelow(Image(), dir, address + 4096)
      ensures SameOutside(old(mem[..]), mem[..], pd + 4 * TABLES, pd + 4 * (TABLES + PAGES))
    {
      KernelPageMapped(Image(), dir, address);
      var _ := MapAddr(address, address, true, true);
    }

    /** Everything that ptm_initialize writes into the directory and the tables. */
    method BuildIdentityMap(ghost top: nat)
      requires top == RoundUp(kernelEnd) && mem.Length <= 0x1_0000_0000
      requires top + 4 * (TABLES + PAGES) < 0x1_0000_0000 && top + 4 * (TABLES + PAGES) <= mem.Length
      modifies this`kernelEnd, this`pd, this`dir, mem
      ensures pd == 4096 * dir == top && kernelEnd == pd + 4 * (TABLES + PAGES)
      ensures MappedBelow(Image(), dir, kernelEnd) && Image()[1024 * dir + PHYS_ADDR] == pd
      ensures SameOutside(old(mem[..]), mem[..], pd, kernelEnd)
    {
      ghost var bytes := mem[..];
      BuildDirectory(top);
      ghost var built := mem[..];
      EndAligned(dir, kernelEnd);
      MapKernel();
      SameOutsideBoth(bytes, built, mem[..], pd, kernelEnd, pd + 4 * TABLES, kernelEnd, pd, kernelEnd);
      SameWordAt(built, mem[..], pd + 4 * TABLES, kernelEnd, 1024 * dir + PHYS_ADDR);
    }

    /** The same, seen from the frame allocator: the first bits of its bitmap do not change. */
    method BuildBehindBitmap(ghost extent: nat, ghost top: nat)
      requires top == RoundUp(kernelEnd)
      requires top + 4 * (TABLES + PAGES) < 0x1_0000_0000 && top + 4 * (TABLES + PAGES) <= mem.Length
      requires OneMemory() && pfa.Valid() && extent <= 0x2_0000 && pfa.bitmap.buffer + extent <= top
      modifies this`kernelEnd, this`pd, this`dir, mem
      ensures pd == 4096 * dir == top && kernelEnd == pd + 4 * (TABLES + PAGES)
      ensures MappedBelow(Image(), dir, kernelEnd) && Image()[1024 * dir + PHYS_ADDR] == pd
      ensures SameOutside(old(mem[..]), mem[..], pd, kernelEnd)
      ensures FirstBits(pfa.State(), 8 * extent) == old(FirstBits(pfa.State(), 8 * extent))
    {
      ghost var bytes := mem[..];
      BuildIdentityMap(top);
      SameBits(bytes, mem[..], pfa.bitmap.buffer, extent);
    }

    /** The last step: locks the kernel's pages. What it writes lies before the directory. */
    method LockKernel(ghost pages: u32, ghost extent: nat)
      requires OneMemory() && pfa.Valid() && pd == 4096 * dir && kernelEnd == pd + 4 * (TABLES + PAGES)
      requires pages == NumPages(Wrap(kernelEnd - kernelStart)) && extent == pfa.Extent(kernelStart, pages)
      requires MappedBelow(Image(), dir, kernelEnd) && pfa.bitmap.buffer + extent <= pd
      modifies mem, pfa`freeMemory, pfa`usedMemory
      ensures pfa.Valid() && pfa.State() == ApplyPages(Lock, old(pfa.State()), kernelStart, pages)
      ensures MappedBelow(Image(), dir, kernelEnd)
      ensures Image()[1024 * dir + PHYS_ADDR] == old(Image()[1024 * dir + PHYS_ADDR])
      ensures SameOutside(old(mem[..]), mem[..], pfa.bitmap.buffer, pfa.bitmap.buffer + extent)
    {
      ghost var bytes := mem[..];
      var kernelSize := Wrap(kernelEnd - kernelStart);
      var kernelPages := NumPages(kernelSize);
      pfa.LockPages(kernelStart, kernelPages);
      TablesKept(bytes, mem[..], pfa.bitmap.buffer, pfa.bitmap.buffer + extent, dir, kernelEnd);
    }

    /** The same, where the bits are those of another state. */
    method LockKernelBits(ghost pages: u32, ghost extent: nat, ghost frames: Frames)
      requires OneMemory() && pfa.Valid() && pd == 4096 * dir && kernelEnd == pd + 4 * (TABLES + PAGES)
      requires pages == NumPages(Wrap(kernelEnd - kernelStart)) && extent == pfa.Extent(kernelStart, pages)
      requires MappedBelow(Image(), dir, kernelEnd) && pfa.bitmap.buffer + extent <= pd
      requires Addressable(frames) && 8 * extent <= |frames.cells|
      requires 8 * extent <= |pfa.State().cells| && FirstBits(pfa.State(), 8 * extent) == FirstBits(frames, 8 * extent)
      modifies mem, pfa`freeMemory, pfa`usedMemory
      ensures pfa.Valid() && 8 * extent <= |pfa.State().cells|
      ensures FirstBits(pfa.State(), 8 * extent) == FirstBits(ApplyPages(Lock, frames, kernelStart, pages), 8 * extent)
      ensures MappedBelow(Image(), dir, kernelEnd)
      ensures Image()[1024 * dir + PHYS_ADDR] == old(Image()[1024 * dir + PHYS_ADDR])
      ensures SameOutside(old(mem[..]), mem[..], pfa.bitmap.buffer, pfa.bitmap.buffer + extent)
    {
      LockedFirstBits(pfa.State(), frames, kernelStart, pages, extent);
      LockKernel(pages, extent);
    }

    /** ptm_initialize. CR3 is then loaded with the address of the physical entries, pd + 4096: the hardware sees
        an identity map of everything below the final KERNEL_END. The bitmap must lie before KERNEL_END (top, when
        rounded up); when it does not cover the kernel's pages, so must the 128 KiB that its 32-bit page numbers
        reach. */
    method Initialize(ghost top: nat, ghost pages: u32, ghost extent: nat)
      requires top == RoundUp(kernelEnd)
      requires top + 4 * (TABLES + PAGES) < 0x1_0000_0000 && top + 4 * (TABLES + PAGES) <= mem.Length
      requires pages == NumPages(Wrap(top + 4 * (TABLES + PAGES) - kernelStart))
      requires OneMemory() && pfa.Valid()
      requires extent == pfa.Extent(kernelStart, pages) && pfa.bitmap.buffer + extent <= top
      modifies this`kernelEnd, this`pd, this`dir, mem, pfa`freeMemory, pfa`usedMemory
      ensures pd == 4096 * dir == top && kernelEnd == top + 4 * (TABLES + PAGES) == top + 4096 * 1027
      ensures MappedBelow(Image(), dir, kernelEnd) && Image()[1024 * dir + PHYS_ADDR] == pd
      ensures pd + 4096 < 0x1_0000_0000 && HardwareSeesIdentityBelow(Image(), pd + 4096, kernelEnd)
      ensures pfa.Valid()
      ensures FirstBits(pfa.State(), 8 * extent)
           == FirstBits(ApplyPages(Lock, old(pfa.State()), kernelStart, pages), 8 * extent)
      ensures LocksKernel(pfa.State(), old(pfa.State()), 8 * extent, pfa.Limit(), kernelStart, kernelEnd)
      ensures SameOutsideTwo(old(mem[..]), mem[..], pfa.bitmap.buffer, pfa.bitmap.buffer + extent, pd, kernelEnd)
    {
      ghost var was := pfa.State();
      InitializeMemory(top, pages, extent);
      WalkAfterInitialize(Image(), dir, kernelEnd, dir + 3 + 1024, pd + 4096);
      KernelIsLocked(pfa.State(), was, 8 * extent, pfa.Limit(), kernelStart, kernelEnd, pages);
    }

    /** Everything but what the hardware makes of it. */
    method InitializeMemory(ghost top: nat, ghost pages: u32, ghost extent: nat)
      requires top == RoundUp(kernelEnd)
      requires top + 4 * (TABLES + PAGES) < 0x1_0000_0000 && top + 4 * (TABLES + PAGES) <= mem.Length
      requires pages == NumPages(Wrap(top + 4 * (TABLES + PAGES) - kernelStart))
      requires OneMemory() && pfa.Valid()
      requires extent == pfa.Extent(kernelStart, pages) && pfa.bitmap.buffer + extent <= top
      modifies this`kernelEnd, this`pd, this`dir, mem, pfa`freeMemory, pfa`usedMemory
      ensures pd == 4096 * dir == top && kernelEnd == top + 4 * (TABLES + PAGES)
      ensures MappedBelow(Image(), dir, kernelEnd) && Image()[1024 * dir + PHYS_ADDR] == pd
      ensures pfa.Valid()
      ensures FirstBits(pfa.State(), 8 * extent)
           == FirstBits(ApplyPages(Lock, old(pfa.State()), kernelStart, pages), 8 * extent)
      ensures SameOutsideTwo(old(mem[..]), mem[..], pfa.bitmap.buffer, pfa.bitmap.buffer + extent, pd, kernelEnd)
    {
      ghost var frames, bytes := pfa.State(), mem[..];
      BuildBehindBitmap(extent, top);
      ghost var built := mem[..];
      LockKernelBits(pages, extent, frames);
      SameOutsideEach(bytes, built, mem[..], pfa.bitmap.buffer, pfa.bitmap.buffer + extent, pd, kernelEnd);
    }

    /** pfa_request_mpages: finds a run, maps every page of it to itself, then locks it. The bitmap, or the 128 KiB
        that a truncated run reaches, must lie before the directory. */
    method RequestMappedPages(pageCount: u32, ghost extent: nat) returns (address: u32)
      requires OneMemory() && pd == 4096 * dir && Complete(Image(), dir) && pfa.Valid()
      requires extent == pfa.RequestExtent(pageCount) && pfa.bitmap.buffer + extent <= pd
      modifies mem, pfa`freeMemory, pfa`usedMemory
      ensures pfa.Valid() && Complete(Image(), dir)
      ensures FirstBits(pfa.State(), 8 * extent)
           == FirstBits(RequestPages(old(pfa.State()), pfa.Limit(), pageCount), 8 * extent)
      ensures match FirstFit(old(pfa.State()).cells, pfa.Limit(), pageCount, 0)
              case None => address == 0 && mem[..] == old(mem[..])
              case Some(i) => && address == i * 4096
                              && Entries(Image(), dir)
                                 == MapAll(old(Entries(Image(), dir)), RangeMappings(address, pageCount))
      ensures Apart(old(mem[..]), extent)
    {
      var run, _ := FindRun(pfa.bitmap, pageCount);
      if run.None? {
        return 0;
      }
      ghost var frames, bytes := pfa.State(), mem[..];
      address := run.value * 4096;
      pfa.RunInExtent(run.value, pageCount);
      MapRange(address, pageCount);
      ghost var mapped := mem[..];
      SameBits(bytes, mapped, pfa.bitmap.buffer, extent);
      LockedFirstBits(pfa.State(), frames, address, pageCount, extent);
      LockMapped(address, pageCount, extent);
      SameOutsideEach(bytes, mapped, mem[..], pfa.bitmap.buffer, pfa.bitmap.buffer + extent,
                      pd + 4 * TABLES, pd + 4 * (TABLES + PAGES));
    }

    /** No byte has changed but in the bitmap's extent and in the tables. */
    ghost predicate Apart(before: seq<byte>, extent: nat)
      reads this, mem, pfa, pfa.bitmap
    {
      SameOutsideTwo(before, mem[..], pfa.bitmap.buffer, pfa.bitmap.buffer + extent,
                     pd + 4 * TABLES, pd + 4 * (TABLES + PAGES))
    }

    /** Locks pages that are mapped; the tables lie behind what is written. */
    method LockMapped(address: u32, pageCount: u32, ghost extent: nat)
      requires OneMemory() && pd == 4096 * dir && Complete(Image(), dir) && pfa.Valid()
      requires pfa.Extent(address, pageCount) <= extent && pfa.bitmap.buffer + extent <= pd
      modifies mem, pfa`freeMemory, pfa`usedMemory
      ensures pfa.Valid() && pfa.State() == ApplyPages(Lock, old(pfa.State()), address, pageCount)
      ensures Complete(Image(), dir) && Entries(Image(), dir) == old(Entries(Image(), dir))
      ensures SameOutside(old(mem[..]), mem[..], pfa.bitmap.buffer, pfa.bitmap.buffer + extent)
    {
      ghost var bytes := mem[..];
      pfa.LockPages(address, pageCount);
      SameWords(bytes, mem[..], pfa.bitmap.buffer, pfa.bitmap.buffer + extent, 1024 * dir, 1024 * dir + TABLES + PAGES);
      SameTables(WordsOf(bytes), Image(), dir);
    }

    /** Locking pages does the same to the first bits of both states. */
    lemma LockedFirstBits(s: Frames, t: Frames, address: u32, n: u32, extent: nat)
      requires pfa.Valid() && Addressable(s) && Addressable(t)
      requires pfa.Extent(address, n) <= extent && 8 * extent <= |s.cells| && 8 * extent <= |t.cells|
      requires FirstBits(s, 8 * extent) == FirstBits(t, 8 * extent)
      ensures FirstBits(ApplyPages(Lock, s, address, n), 8 * extent)
           == FirstBits(ApplyPages(Lock, t, address, n), 8 * extent)
    {
      pfa.PagesInExtent(address, n);
      MorePagesBelow(address, n, 8 * pfa.Extent(address, n), 8 * extent);
      FirstBitsDecide(Lock, s, t, address, n, 8 * extent);
    }

    /** pfa_request_mpage. A single page is always covered. */
    method RequestMappedPage() returns (address: u32)
      requires OneMemory() && pd == 4096 * dir && Complete(Image(), dir) && pfa.Valid()
      requires pfa.bitmap.buffer + pfa.bitmap.size <= pd
      modifies mem, pfa`freeMemory, pfa`usedMemory
      ensures pfa.Valid() && Complete(Image(), dir)
      ensures FirstBits(pfa.State(), pfa.Limit())
           == FirstBits(RequestPages(old(pfa.State()), pfa.Limit(), 1), pfa.Limit())
      ensures match FirstFit(old(pfa.State()).cells, pfa.Limit(), 1, 0)
              case None => address == 0 && mem[..] == old(mem[..])
              case Some(i) => && address == i * 4096
                              && Entries(Image(), dir)
                                 == MapOne(old(Entries(Image(), dir)), Mapping(address, address, true, true))
      ensures Apart(old(mem[..]), pfa.bitmap.size)
    {
      ghost var before, limit := pfa.State(), pfa.Limit();
      ghost var bytes := mem[..];
      var index: u32 := 0;
      while index < pfa.bitmap.size * 8
        invariant index <= limit
        invariant pfa.State() == before && mem[..] == bytes
        invariant FirstFit(before.cells, limit, 1, 0) == FirstFit(before.cells, limit, 1, index)
      {
        if pfa.bitmap.Get(index) {
          SkipPastSetBit(before.cells, limit, 1, index, index);
          index := index + 1;
          continue;
        }
        assert Fits(before.cells, limit, 1, index);
        address := index * 4096;
        MapAndLock(address);
        SinglePage(Lock, before, address);
        assert RequestPages(before, limit, 1) == ApplyPage(Lock, before, address);
        return;
      }
      return 0;
    }

    /** Maps and locks one page that has a bit. */
    method MapAndLock(page: u32)
      requires OneMemory() && pd == 4096 * dir && Complete(Image(), dir) && pfa.Valid()
      requires pfa.bitmap.buffer + pfa.bitmap.size <= pd && page / 4096 < pfa.Limit()
      modifies mem, pfa`freeMemory, pfa`usedMemory
      ensures pfa.Valid() && Complete(Image(), dir)
      ensures FirstBits(pfa.State(), pfa.Limit()) == FirstBits(ApplyPage(Lock, old(pfa.State()), page), pfa.Limit())
      ensures Entries(Image(), dir) == MapOne(old(Entries(Image(), dir)), Mapping(page, page, true, true))
      ensures Apart(old(mem[..]), pfa.bitmap.size)
    {
      ghost var frames, bytes := pfa.State(), mem[..];
      MapPresent(page);
      ghost var mapped := mem[..];
      SameBits(bytes, mapped, pfa.bitmap.buffer, pfa.bitmap.size);
      FirstBitsDecideOne(Lock, pfa.State(), frames, page, pfa.Limit());
      LockMappedPage(page);
      SameOutsideEach(bytes, mapped, mem[..], pfa.bitmap.buffer, pfa.bitmap.buffer + pfa.bitmap.size,
                      pd + 4 * TABLES, pd + 4 * (TABLES + PAGES));
    }

    /** Locking it leaves the tables alone. */
    method LockMappedPage(page: u32)
      requires OneMemory() && pd == 4096 * dir && Complete(Image(), dir) && pfa.Valid()
      requires pfa.bitmap.buffer + pfa.bitmap.size <= pd && page / 4096 < pfa.Limit()
      modifies mem, pfa`freeMemory, pfa`usedMemory
      ensures pfa.Valid() && pfa.State() == ApplyPage(Lock, old(pfa.State()), page)
      ensures Complete(Image(), dir) && Entries(Image(), dir) == old(Entries(Image(), dir))
      ensures SameOutside(old(mem[..]), mem[..], pfa.bitmap.buffer, pfa.bitmap.buffer + pfa.bitmap.size)
    {
      ghost var bytes, low, high := mem[..], pfa.bitmap.buffer, pfa.bitmap.buffer + pfa.bitmap.size;
      pfa.LockPage(page);
      pfa.ByteInExtent(bytes, bytes, mem[..], page, pfa.bitmap.size);
      SameWords(bytes, mem[..], low, high, 1024 * dir, 1024 * dir + TABLES + PAGES);
      SameTables(WordsOf(bytes), Image(), dir);
    }

    /** ptm_map_addr of an address to itself once the directory is complete: abort() is not reached. */
    method MapPresent(address: u32)
      requires pd == 4096 * dir && Complete(Image(), dir)
      modifies mem
      ensures Complete(Image(), dir)
      ensures Entries(Image(), dir) == MapOne(old(Entries(Image(), dir)), Mapping(address, address, true, true))
      ensures SameOutside(old(mem[..]), mem[..], pd + 4 * TABLES, pd + 4 * (TABLES + PAGES))
    {
      MapOneWritten(Image(), dir, Mapping(address, address, true, true));
      var _ := MapAddr(address, address, true, true);
    }

    method MapRange(page: u32, pageCount: u32)
      requires pd == 4096 * dir && Complete(Image(), dir)
      modifies mem
      ensures Complete(Image(), dir)
      ensures Entries(Image(), dir) == MapAll(old(Entries(Image(), dir)), RangeMappings(page, pageCount))
      ensures SameOutside(old(mem[..]), mem[..], pd + 4 * TABLES, pd + 4 * (TABLES + PAGES))
    {
      ghost var before, bytes := Entries(Image(), dir), mem[..];
      for offset := 0 to pageCount
        invariant Complete(Image(), dir)
        invariant Entries(Image(), dir) == MapAll(before, RangeMappings(page, offset))
        invariant SameOutside(bytes, mem[..], pd + 4 * TABLES, pd + 4 * (TABLES + PAGES))
      {
        var address := Wrap(page + Wrap(offset * 4096));
        PageAddressInTwoSteps(page, offset);
        OneMoreMapping(before, page, offset);
        MapPresent(address);
      }
    }
  }
}
