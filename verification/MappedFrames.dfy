/** The frame allocator and the page tables together, over whole runs from ptm_initialize on
    (kernel/arch/i386/paging): every frame that is held is mapped, to itself. */
module MappedFrames {
  import opened Words
  import opened RunSearch
  import opened Frames
  import opened PageTables
  import opened PageTableManagement

  /** What ptm_initialize maps are identities. */
  lemma BelowIsIdentity(entries: seq<u32>, end: nat)
    requires |entries| == PAGES && IdentityBelow(entries, end)
    ensures Identity(entries)
  {
    forall page | 0 <= page < PAGES
      ensures entries[page] == 0 || (entries[page] % 2 == 1 && entries[page] / 4096 == page)
    {
      EntryBits(page);
    }
  }

  /** The entries after an action; a request maps what it hands out, as pfa_request_mpage and
      pfa_request_mpages do. */
  ghost function Mapped(entries: seq<u32>, cells: seq<bool>, limit: nat, action: Action): (more: seq<u32>)
    requires |entries| == PAGES && limit <= |cells| && limit <= 0x10_0000
    ensures |more| == PAGES
  {
    match action
    case Obtain(n) => MappedRun(entries, FirstFit(cells, limit, n, 0), n)
    case Release(_) => entries
    case WriteBehind(_) => entries
  }

  ghost function MappedRun(entries: seq<u32>, fit: Option<nat>, n: u32): (more: seq<u32>)
    requires |entries| == PAGES && (fit.Some? ==> fit.value < 0x10_0000)
    ensures |more| == PAGES
  {
    match fit
    case None => entries
    case Some(start) => MapAll(entries, RangeMappings(start * 4096, n))
  }

  ghost function MappedAll(entries: seq<u32>, c: Client, limit: nat, actions: seq<Action>): (more: seq<u32>)
    requires |entries| == PAGES
    requires limit <= 0x10_0000 <= |c.frames.cells| && AllAllowed(c, limit, actions)
    ensures |more| == PAGES
    decreases |actions|
  {
    if actions == [] then entries
    else MappedAll(Mapped(entries, c.frames.cells, limit, actions[0]), Act(c, limit, actions[0]), limit, actions[1..])
  }

  /** Every frame of a block has an entry. */
  ghost predicate HasEntries(b: Block, entries: seq<u32>)
    requires |entries| == PAGES
  {
    forall frame :: Has(b, frame) && 0 <= frame < PAGES ==> entries[frame] != 0
  }

  ghost predicate AllHaveEntries(held: seq<Block>, entries: seq<u32>)
    requires |entries| == PAGES
  {
    forall b :: b in held ==> HasEntries(b, entries)
  }

  lemma RunKeepsIdentity(entries: seq<u32>, start: u32, n: nat)
    requires |entries| == PAGES && Identity(entries)
    ensures Identity(MapAll(entries, RangeMappings(start, n)))
  {
    IdentityKept(entries, RangeMappings(start, n));
  }

  lemma EntriesStay(b: Block, entries: seq<u32>, calls: seq<Mapping>)
    requires |entries| == PAGES && HasEntries(b, entries)
    ensures HasEntries(b, MapAll(entries, calls))
  {
    forall frame | Has(b, frame) && 0 <= frame < PAGES
      ensures MapAll(entries, calls)[frame] != 0
    {
      EntryKept(entries, calls, frame);
    }
  }

  lemma RunHasEntries(entries: seq<u32>, start: nat, n: u32)
    requires |entries| == PAGES && start + n <= PAGES && start < PAGES
    ensures HasEntries(Block(start, n), MapAll(entries, RangeMappings(start * 4096, n)))
  {
    var calls := RangeMappings(start * 4096, n);
    forall frame | start <= frame < start + n
      ensures MapAll(entries, calls)[frame] != 0
    {
      assert PageAddress(start * 4096, frame - start) == frame * 4096;
      MappedIsNonzero(entries, calls, frame, frame - start);
    }
  }

  /** One action. */
  lemma ActionMaps(entries: seq<u32>, c: Client, limit: nat, action: Action)
    requires |entries| == PAGES && Identity(entries) && AllHaveEntries(c.held, entries)
    requires limit <= 0x10_0000 <= |c.frames.cells| && Allowed(c, limit, action)
    ensures var more := Mapped(entries, c.frames.cells, limit, action);
      Identity(more) && AllHaveEntries(Act(c, limit, action).held, more)
  {
    match action
    case Obtain(n) =>
      var fit := FirstFit(c.frames.cells, limit, n, 0);
      if fit.Some? {
        ObtainMaps(entries, c, limit, n, fit.value);
      }
    case Release(k) =>
    case WriteBehind(_) =>
  }

  lemma ObtainMaps(entries: seq<u32>, c: Client, limit: nat, n: u32, start: nat)
    requires |entries| == PAGES && Identity(entries) && AllHaveEntries(c.held, entries)
    requires limit <= 0x10_0000 <= |c.frames.cells| && Allowed(c, limit, Obtain(n))
    requires FirstFit(c.frames.cells, limit, n, 0) == Some(start)
    ensures var more := MapAll(entries, RangeMappings(start * 4096, n));
      Identity(more) && AllHaveEntries(c.held + [Block(start, n)], more)
  {
    LowestFullRun(c.frames.cells, limit, n);
    RunKeepsIdentity(entries, start * 4096, n);
    RunHasEntries(entries, start, n);
    forall b | b in c.held
      ensures HasEntries(b, MapAll(entries, RangeMappings(start * 4096, n)))
    {
      EntriesStay(b, entries, RangeMappings(start * 4096, n));
    }
  }

  lemma {:induction false} RunMaps(entries: seq<u32>, c: Client, limit: nat, actions: seq<Action>)
    requires |entries| == PAGES && Identity(entries) && AllHaveEntries(c.held, entries)
    requires limit <= 0x10_0000 <= |c.frames.cells| && AllAllowed(c, limit, actions)
    ensures var more := MappedAll(entries, c, limit, actions);
      Identity(more) && AllHaveEntries(ActAll(c, limit, actions).held, more)
    decreases |actions|
  {
    if actions != [] {
      ActionMaps(entries, c, limit, actions[0]);
      RunMaps(Mapped(entries, c.frames.cells, limit, actions[0]), Act(c, limit, actions[0]), limit, actions[1..]);
    }
  }

  lemma RunMapsFromBelow(entries: seq<u32>, c: Client, limit: nat, start: nat, k: nat, actions: seq<Action>)
    requires |entries| == PAGES && IdentityBelow(entries, (start + k) * 4096) && c.held == [Block(start, k)]
    requires limit <= 0x10_0000 <= |c.frames.cells| && AllAllowed(c, limit, actions)
    ensures var more := MappedAll(entries, c, limit, actions);
      Identity(more) && AllHaveEntries(ActAll(c, limit, actions).held, more)
  {
    BelowIsIdentity(entries, (start + k) * 4096);
    KernelHasEntries(entries, start, k);
    RunMaps(entries, c, limit, actions);
  }

  lemma KernelHasEntries(entries: seq<u32>, start: nat, k: nat)
    requires |entries| == PAGES && IdentityBelow(entries, (start + k) * 4096)
    ensures HasEntries(Block(start, k), entries)
  {
  }

  /** The hardware finds the addresses of every block that has entries. */
  lemma HeldWalk(mem: seq<u32>, dir: nat, held: seq<Block>, i: nat, linear: u32)
    requires Complete(mem, dir) && Identity(Entries(mem, dir)) && AllHaveEntries(held, Entries(mem, dir))
    requires i < |held|
    ensures Has(held[i], linear / 4096) ==> FindsItself(mem, 4096 * dir + 4096, linear)
  {
    IdentityWalk(mem, dir, linear);
    assert HasEntries(held[i], Entries(mem, dir));
  }

  /** The hardware translates the address to itself, for the supervisor only. */
  ghost predicate FindsItself(mem: seq<u32>, cr3: u32, linear: u32) {
    var t := HardwareWalk(mem, cr3, linear);
    t.Present? && t.physical == linear && !t.user
  }

  /** From ptm_initialize on, over every run of mapped requests and releases, whatever is written behind the
      bitmap in between: the kernel keeps its frames, no frame is held twice, and the hardware translates every
      address of a held frame to itself, for the supervisor only. */
  lemma HeldFramesMapped(mem: seq<u32>, dir: nat, booted: Frames, was: Frames, bits: nat, limit: nat,
                         start: nat, k: nat, actions: seq<Action>, after: seq<u32>, i: nat, linear: u32)
    requires MappedBelow(mem, dir, (start + k) * 4096)
    requires KernelBooted(booted, was, bits, limit, start, k) && KernelCovered(was, start, k)
    requires AllAllowed(Client(booted, [Block(start, k)]), limit, actions)
    requires Complete(after, dir)
    requires Entries(after, dir) == MappedAll(Entries(mem, dir), Client(booted, [Block(start, k)]), limit, actions)
    ensures var d := ActAll(Client(booted, [Block(start, k)]), limit, actions);
      && Separated(d, limit) && d.held != [] && d.held[0] == Block(start, k)
      && (i < |d.held| && Has(d.held[i], linear / 4096) ==> FindsItself(after, 4096 * dir + 4096, linear))
  {
    var c := Client(booted, [Block(start, k)]);
    KernelNeverHandedOut(booted, was, bits, limit, start, k, actions);
    RunMapsFromBelow(Entries(mem, dir), c, limit, start, k, actions);
    if i < |ActAll(c, limit, actions).held| {
      HeldWalk(after, dir, ActAll(c, limit, actions).held, i, linear);
    }
  }
}
