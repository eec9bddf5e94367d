/** The two-level page table of paging.h in word-addressed physical memory, the hardware's walk over it
    (Intel SDM volume 3A, section 4.3, 32-bit paging), and the laws of mapping only absent pages. */
module PageTables {
  import opened Words

  // x | 0x01, x | 0x03 and x | 0x05: truth tables over the lowest three bits
  function Or1(x: u32): u32 { x - x % 8 + [1, 1, 3, 3, 5, 5, 7, 7][x % 8] }
  function Or3(x: u32): u32 { x - x % 8 + [3, 3, 3, 3, 7, 7, 7, 7][x % 8] }
  function Or5(x: u32): u32 { x - x % 8 + [5, 5, 7, 7, 5, 5, 7, 7][x % 8] }

  /** Bit 0 is set by all three and bit 1 by 0x03; the frame number is never touched. */
  lemma OrBits(x: u32)
    ensures Or1(x) / 4096 == Or3(x) / 4096 == Or5(x) / 4096 == x / 4096
    ensures Or1(x) % 2 == Or3(x) % 2 == Or5(x) % 2 == 1
    ensures Or1(x) / 2 % 2 == Or5(x) / 2 % 2 == x / 2 % 2 && Or3(x) / 2 % 2 == 1
    ensures Or1(x) / 4 % 2 == Or3(x) / 4 % 2 == x / 4 % 2 && Or5(x) / 4 % 2 == 1
  {
    LowBits(x, x / 8, x % 8);
    OrTables(x % 8);
    LowBits(Or1(x), x / 8, [1, 1, 3, 3, 5, 5, 7, 7][x % 8]);
    LowBits(Or3(x), x / 8, [3, 3, 3, 3, 7, 7, 7, 7][x % 8]);
    LowBits(Or5(x), x / 8, [5, 5, 7, 7, 5, 5, 7, 7][x % 8]);
  }

  lemma OrTables(low: nat)
    requires low < 8
    ensures var y := [1, 1, 3, 3, 5, 5, 7, 7][low];
      0 <= y < 8 && y % 2 == 1 && y / 2 % 2 == low / 2 % 2 && y / 4 == low / 4
    ensures var y := [3, 3, 3, 3, 7, 7, 7, 7][low]; 0 <= y < 8 && y % 2 == 1 && y / 2 % 2 == 1 && y / 4 == low / 4
    ensures var y := [5, 5, 7, 7, 5, 5, 7, 7][low]; 0 <= y < 8 && y % 2 == 1 && y / 2 % 2 == low / 2 % 2 && y / 4 == 1
  {
  }

  lemma LowBits(x: nat, high: nat, low: nat)
    requires x == 8 * high + low && low < 8
    ensures x % 2 == low % 2 && x / 2 % 2 == low / 2 % 2 && x / 4 % 2 == low / 4 && x / 4096 == high / 512
  {
    Parity(4 * high, low);
    Shifted(x, high, low);
    Parity(2 * high, low / 2);
    Parity(high, low / 4);
    FrameNumber(x, high, low);
  }

  lemma Parity(k: nat, low: nat)
    ensures (2 * k + low) % 2 == low % 2
  {
  }

  lemma Shifted(x: nat, high: nat, low: nat)
    requires x == 8 * high + low && low < 8
    ensures x / 2 == 2 * (2 * high) + low / 2 && x / 4 == 2 * high + low / 4
  {
  }

  lemma FrameNumber(x: nat, high: nat, low: nat)
    requires x == 8 * high + low && low < 8
    ensures x / 4096 == high / 512
  {
  }

  /** The page directory occupies three page frames from frame number dir on: 1024 entries, 1024 physical
      entries and its own address. The 1024 tables follow it. Offsets are in words. */
  const PHYS_ENTRIES := 1024
  const PHYS_ADDR := 2048
  const TABLES := 3072
  const PAGES := 0x10_0000

  /** The directory entry of table d: its address, present, writable, supervisor. */
  function TableEntry(dir: nat, d: nat): nat {
    4096 * (dir + 3 + d) + 3
  }

  /** Directory entry d is empty or points to its own table, and both copies agree. */
  ghost predicate EntrySound(mem: seq<u32>, dir: nat, d: nat)
    requires 1024 * dir + TABLES <= |mem| && d < 1024
  {
    && (mem[1024 * dir + d] == 0 || mem[1024 * dir + d] == TableEntry(dir, d))
    && mem[1024 * dir + PHYS_ENTRIES + d] == mem[1024 * dir + d]
  }

  ghost predicate EntryFilled(mem: seq<u32>, dir: nat, d: nat)
    requires 1024 * dir + TABLES <= |mem| && d < 1024
  {
    mem[1024 * dir + d] == TableEntry(dir, d)
  }

  /** The directory and the space for all its tables are in memory, and every entry is sound. */
  ghost predicate Built(mem: seq<u32>, dir: nat) {
    && 1024 * dir + TABLES + PAGES <= |mem| <= 0x4000_0000
    && forall d :: 0 <= d < 1024 ==> EntrySound(mem, dir, d)
  }

  ghost predicate Complete(mem: seq<u32>, dir: nat) {
    Built(mem, dir) && forall d :: 0 <= d < 1024 ==> EntryFilled(mem, dir, d)
  }

  /** The 1024 tables lie side by side, so together they hold one entry per page of the address space. */
  ghost function Entries(mem: seq<u32>, dir: nat): (entries: seq<u32>)
    requires Built(mem, dir)
    ensures |entries| == PAGES
  {
    mem[1024 * dir + TABLES..1024 * dir + TABLES + PAGES]
  }

  // ----- The hardware -----

  datatype Translation = Absent | Present(physical: nat, writable: bool, user: bool)

  ghost function Load(mem: seq<u32>, address: nat): u32 {
    if address / 4 < |mem| then mem[address / 4] else 0
  }

  /** How the processor translates a linear address when CR3 holds cr3 (with 4-KByte pages only). */
  ghost function HardwareWalk(mem: seq<u32>, cr3: u32, linear: u32): Translation {
    var pde := Load(mem, cr3 / 4096 * 4096 + linear / 0x40_0000 * 4);
    if pde % 2 == 0 then Absent
    else
      var pte := Load(mem, pde / 4096 * 4096 + linear / 4096 % 1024 * 4);
      if pte % 2 == 0 then Absent
      else Present(pte / 4096 * 4096 + linear % 4096,
                   pde / 2 % 2 == 1 && pte / 2 % 2 == 1, pde / 4 % 2 == 1 && pte / 4 % 2 == 1)
  }

  /** What one table entry says about a page, given that directory entries are writable and supervisor. */
  ghost function Decode(entry: u32, linear: u32): Translation {
    if entry % 2 == 0 then Absent
    else Present(entry / 4096 * 4096 + linear % 4096, entry / 2 % 2 == 1, false)
  }

  /** From the physical entries, the hardware finds what the software wrote into the tables. No address
      is ever accessible to user code, whatever is_kernel asked for. */
  lemma WalkReadsEntries(mem: seq<u32>, dir: nat, linear: u32)
    requires Complete(mem, dir)
    ensures HardwareWalk(mem, 4096 * dir + 4096, linear) == Decode(Entries(mem, dir)[linear / 4096], linear)
  {
    var d := linear / 0x40_0000;
    assert EntrySound(mem, dir, d) && EntryFilled(mem, dir, d);
    assert Load(mem, (4096 * dir + 4096) / 4096 * 4096 + d * 4) == TableEntry(dir, d);
    EntryBits(dir + 3 + d);
    TableArithmetic(dir, d, linear);
  }

  lemma EntryBits(frame: nat)
    ensures var entry := 4096 * frame + 3;
      entry / 4096 == frame && entry % 2 == 1 && entry / 2 % 2 == 1 && entry / 4 % 2 == 0
  {
    LowBits(4096 * frame + 3, 512 * frame, 3);
  }

  /** The two lookups of the walk land on the word that the page number selects among all tables. */
  lemma TableArithmetic(dir: nat, d: nat, linear: nat)
    requires d == linear / 0x40_0000
    ensures (4096 * (dir + 3 + d) + linear / 4096 % 1024 * 4) / 4 == 1024 * dir + TABLES + linear / 4096
  {
    var page := linear / 4096;
    assert page / 1024 == d;
    assert page == 1024 * d + page % 1024;
  }

  // ----- Mapping -----

  /** The entry that ptm_map_addr writes. */
  function Flags(physical: u32, isKernel: bool, isWritable: bool): u32 {
    var present := Or1(physical);
    var writable := if isWritable then Or3(present) else present;
    if isKernel then writable else Or5(writable)
  }

  lemma FlagsBits(physical: u32, isKernel: bool, isWritable: bool)
    ensures var f := Flags(physical, isKernel, isWritable);
      f / 4096 == physical / 4096 && f % 2 == 1 && (f / 2 % 2 == 1 <==> isWritable || physical / 2 % 2 == 1)
  {
    var present := Or1(physical);
    var writable := if isWritable then Or3(present) else present;
    OrBits(physical);
    OrBits(present);
    OrBits(writable);
  }

  /** The user bit of the entry itself: set when the page is not the kernel's. */
  lemma UserBitExactlyWhen(physical: u32, isKernel: bool, isWritable: bool)
    ensures Flags(physical, isKernel, isWritable) / 4 % 2 == 1 <==> !isKernel || physical / 4 % 2 == 1
  {
    var present := Or1(physical);
    var writable := if isWritable then Or3(present) else present;
    OrBits(physical);
    OrBits(present);
    OrBits(writable);
  }

  /** A written entry is present, keeps the frame, and is writable when asked to be (or when the address
      passed in had that bit set). */
  lemma FlagsMeaning(physical: u32, isKernel: bool, isWritable: bool, linear: u32)
    ensures Decode(Flags(physical, isKernel, isWritable), linear)
         == Present(physical / 4096 * 4096 + linear % 4096, isWritable || physical / 2 % 2 == 1, false)
  {
    FlagsBits(physical, isKernel, isWritable);
  }

  datatype Mapping = Mapping(address: u32, physical: u32, isKernel: bool, isWritable: bool)

  /** One call of ptm_map_addr, on the entries. */
  ghost function MapOne(entries: seq<u32>, m: Mapping): (result: seq<u32>)
    requires |entries| == PAGES
    ensures |result| == PAGES
  {
    if entries[m.address / 4096] != 0 then entries
    else entries[m.address / 4096 := Flags(m.physical, m.isKernel, m.isWritable)]
  }

  ghost function MapAll(entries: seq<u32>, calls: seq<Mapping>): (result: seq<u32>)
    requires |entries| == PAGES
    ensures |result| == PAGES
  {
    if calls == [] then entries
    else MapOne(MapAll(entries, calls[..|calls| - 1]), calls[|calls| - 1])
  }

  ghost predicate IsFirstFor(calls: seq<Mapping>, page: nat, k: int) {
    && 0 <= k < |calls| && calls[k].address / 4096 == page
    && forall j :: 0 <= j < k ==> calls[j].address / 4096 != page
  }

  /** An entry that is already there, or that no call asks for, never changes. */
  lemma {:induction false} EntryKept(entries: seq<u32>, calls: seq<Mapping>, page: nat)
    requires |entries| == PAGES && page < PAGES
    requires entries[page] != 0 || forall c :: c in calls ==> c.address / 4096 != page
    ensures MapAll(entries, calls)[page] == entries[page]
  {
    if calls != [] {
      EntryKept(entries, calls[..|calls| - 1], page);
      assert calls[|calls| - 1] in calls;
    }
  }

  /** The first call for an empty entry decides it for good. */
  lemma {:induction false} FirstMappingWins(entries: seq<u32>, calls: seq<Mapping>, page: nat, k: nat)
    requires |entries| == PAGES && page < PAGES && entries[page] == 0
    requires IsFirstFor(calls, page, k)
    ensures MapAll(entries, calls)[page] == Flags(calls[k].physical, calls[k].isKernel, calls[k].isWritable)
  {
    var last := |calls| - 1;
    if k < last {
      FirstMappingWins(entries, calls[..last], page, k);
      FlagsBits(calls[k].physical, calls[k].isKernel, calls[k].isWritable);
    } else {
      EntryKept(entries, calls[..last], page);
    }
  }

  /** Every entry that is present maps its page to the frame of the same number. */
  ghost predicate Identity(entries: seq<u32>)
    requires |entries| == PAGES
  {
    forall page :: 0 <= page < PAGES ==> entries[page] == 0 || (entries[page] % 2 == 1 && entries[page] / 4096 == page)
  }

  lemma {:induction false} IdentityKept(entries: seq<u32>, calls: seq<Mapping>)
    requires |entries| == PAGES && Identity(entries)
    requires forall c :: c in calls ==> c.physical / 4096 == c.address / 4096
    ensures Identity(MapAll(entries, calls))
  {
    if calls != [] {
      var last := calls[|calls| - 1];
      IdentityKept(entries, calls[..|calls| - 1]);
      assert last in calls;
      FlagsBits(last.physical, last.isKernel, last.isWritable);
    }
  }

  /** Under an identity map the hardware translates every address to itself or not at all. */
  lemma IdentityWalk(mem: seq<u32>, dir: nat, linear: u32)
    requires Complete(mem, dir) && Identity(Entries(mem, dir))
    ensures var t := HardwareWalk(mem, 4096 * dir + 4096, linear);
      t == Absent || (t.Present? && t.physical == linear && !t.user)
    ensures HardwareWalk(mem, 4096 * dir + 4096, linear).Present? <==> Entries(mem, dir)[linear / 4096] != 0
  {
    WalkReadsEntries(mem, dir, linear);
  }

  /** The index of the word that holds the entry of an address. */
  function EntryIndex(dir: nat, address: u32): nat {
    1024 * dir + TABLES + address / 4096
  }

  /** A word written into the tables changes one entry and leaves the directory alone. */
  lemma EntryWritten(mem: seq<u32>, dir: nat, address: u32, value: u32)
    requires Built(mem, dir)
    ensures var after := mem[EntryIndex(dir, address) := value];
      && Built(after, dir) && (Complete(mem, dir) ==> Complete(after, dir))
      && Entries(after, dir) == Entries(mem, dir)[address / 4096 := value]
  {
    var after := mem[EntryIndex(dir, address) := value];
    assert after[..1024 * dir + TABLES] == mem[..1024 * dir + TABLES];
    SameDirectory(mem, after, dir);
    assert Entries(after, dir) == Entries(mem, dir)[address / 4096 := value];
  }

  lemma SameDirectory(mem: seq<u32>, after: seq<u32>, dir: nat)
    requires Built(mem, dir) && |after| == |mem|
    requires after[..1024 * dir + TABLES] == mem[..1024 * dir + TABLES]
    ensures Built(after, dir) && (Complete(mem, dir) ==> Complete(after, dir))
  {
    forall d | 0 <= d < 1024
      ensures EntrySound(after, dir, d) && (EntryFilled(mem, dir, d) ==> EntryFilled(after, dir, d))
    {
      assert EntrySound(mem, dir, d);
      SameWord(mem, after, 1024 * dir + TABLES, 1024 * dir + d);
      SameWord(mem, after, 1024 * dir + TABLES, 1024 * dir + PHYS_ENTRIES + d);
    }
  }

  /** All that counts is in the directory and its tables. */
  lemma SameTables(mem: seq<u32>, after: seq<u32>, dir: nat)
    requires Complete(mem, dir) && |after| == |mem|
    requires var low, high := 1024 * dir, 1024 * dir + TABLES + PAGES; after[low..high] == mem[low..high]
    ensures Complete(after, dir) && Entries(after, dir) == Entries(mem, dir)
    ensures after[1024 * dir + PHYS_ADDR] == mem[1024 * dir + PHYS_ADDR]
  {
    forall w | 1024 * dir <= w < 1024 * dir + TABLES + PAGES
      ensures after[w] == mem[w]
    {
      SliceAt(mem, after, 1024 * dir, 1024 * dir + TABLES + PAGES, w);
    }
    forall d | 0 <= d < 1024
      ensures EntrySound(after, dir, d) && EntryFilled(after, dir, d)
    {
      assert EntrySound(mem, dir, d) && EntryFilled(mem, dir, d);
    }
  }

  lemma SliceAt(a: seq<u32>, b: seq<u32>, low: nat, high: nat, w: nat)
    requires low <= w < high <= |a| && high <= |b| && b[low..high] == a[low..high]
    ensures b[w] == a[w]
  {
    assert b[w] == b[low..high][w - low] && a[w] == a[low..high][w - low];
  }

  lemma SameWord(mem: seq<u32>, after: seq<u32>, n: nat, w: nat)
    requires w < n <= |mem| && n <= |after| && after[..n] == mem[..n]
    ensures after[w] == mem[w]
  {
    assert after[w] == after[..n][w] && mem[w] == mem[..n][w];
  }

  /** One call of ptm_map_addr on a complete directory, as a write to memory. */
  lemma MapOneWritten(mem: seq<u32>, dir: nat, m: Mapping)
    requires Complete(mem, dir)
    ensures mem[1024 * dir + m.address / 0x40_0000] != 0
    ensures var index := EntryIndex(dir, m.address);
      var after := if mem[index] == 0 then mem[index := Flags(m.physical, m.isKernel, m.isWritable)] else mem;
      Complete(after, dir) && Entries(after, dir) == MapOne(Entries(mem, dir), m)
  {
    assert EntryFilled(mem, dir, m.address / 0x40_0000);
    assert Entries(mem, dir)[m.address / 4096] == mem[EntryIndex(dir, m.address)];
    EntryWritten(mem, dir, m.address, Flags(m.physical, m.isKernel, m.isWritable));
  }
}
