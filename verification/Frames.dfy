/** What the page frame allocator of page_frame_allocator.c does to its bitmap and its three counters,
    as functions on values, and the laws that hold over every run of its operations. */
module Frames {
  import opened Words
  import opened RunSearch
  import opened CellCounts

  /** cells holds one bit per page, starting with the bitmap's own bits; a 32-bit address names one of
      2^20 pages, which may lie beyond the bitmap. */
  datatype Frames = Frames(cells: seq<bool>, free: u32, reserved: u32, used: u32)

  ghost predicate Addressable(s: Frames) {
    |s.cells| >= 0x10_0000
  }

  datatype PageOp = Lock | Free | Reserve | Unreserve

  predicate Sets(op: PageOp) {
    op.Lock? || op.Reserve?
  }

  /** One of pfa_lock_page, pfa_free_page, pfa_reserve_page, pfa_unreserve_page. */
  ghost function ApplyPage(op: PageOp, s: Frames, address: u32): Frames
    requires Addressable(s)
  {
    var index := address / 4096;
    if s.cells[index] == Sets(op) then s
    else
      var t := s.(cells := s.cells[index := Sets(op)]);
      match op
      case Lock => t.(free := Wrap(s.free - 4096), used := Wrap(s.used + 4096))
      case Free => t.(free := Wrap(s.free + 4096), used := Wrap(s.used - 4096))
      case Reserve => t.(reserved := Wrap(s.reserved + 4096))
      case Unreserve => t.(reserved := Wrap(s.reserved - 4096))
  }

  /** The address of the i-th page after address; the sum wraps around. */
  function PageAddress(address: u32, i: nat): u32 {
    Wrap(address + i * 4096)
  }

  ghost function ApplyPages(op: PageOp, s: Frames, address: u32, n: nat): (t: Frames)
    requires Addressable(s)
    ensures |t.cells| == |s.cells|
  {
    if n == 0 then s
    else ApplyPage(op, ApplyPages(op, s, address, n - 1), PageAddress(address, n - 1))
  }

  /** The code multiplies the loop index modulo 2^32 before it adds. */
  lemma PageAddressInTwoSteps(address: u32, i: nat)
    ensures Wrap(address + Wrap(i * 4096)) == PageAddress(address, i)
  {
    WrapAdd(i * 4096, address);
  }

  /** One more round of a range operation's loop. */
  lemma OneMorePage(op: PageOp, s: Frames, address: u32, i: nat)
    requires Addressable(s)
    ensures ApplyPages(op, s, address, i + 1)
         == ApplyPage(op, ApplyPages(op, s, address, i), Wrap(address + Wrap(i * 4096)))
  {
    PageAddressInTwoSteps(address, i);
  }

  lemma SinglePage(op: PageOp, s: Frames, address: u32)
    requires Addressable(s)
    ensures ApplyPages(op, s, address, 1) == ApplyPage(op, s, address)
  {
    assert PageAddress(address, 0) == address;
    OneMorePage(op, s, address, 0);
  }

  /** The pages that a range operation visits. */
  ghost predicate Visits(address: u32, n: nat, page: nat) {
    exists i :: 0 <= i < n && PageAddress(address, i) / 4096 == page
  }

  /** A range operation sets (or clears) exactly the pages it visits. */
  lemma {:induction false} PagesCells(op: PageOp, s: Frames, address: u32, n: nat)
    requires Addressable(s)
    ensures var t := ApplyPages(op, s, address, n);
      forall p :: 0 <= p < |s.cells| ==>
        t.cells[p] == if Visits(address, n, p) then op.Lock? || op.Reserve? else s.cells[p]
  {
    if n > 0 {
      PagesCells(op, s, address, n - 1);
      var last := PageAddress(address, n - 1) / 4096;
      forall p: nat
        ensures Visits(address, n, p) <==> Visits(address, n - 1, p) || p == last
      {
        if p == last {
          assert PageAddress(address, n - 1) / 4096 == p;
        }
      }
    }
  }

  /** Without wrap-around the visited pages are n consecutive ones. */
  lemma VisitsRange(start: nat, n: nat, page: nat)
    requires start + n <= 0x10_0000 && start < 0x10_0000
    ensures Visits(start * 4096, n, page) <==> start <= page < start + n
  {
    if start <= page < start + n {
      assert PageAddress(start * 4096, page - start) / 4096 == page;
    }
  }

  // ----- Conservation -----

  /** What no operation changes: the sum of free and used memory, and the gap between the memory that
      is marked as taken and the memory that the counters say is taken. Both are 32-bit sums. */
  ghost function Balance(s: Frames): (u32, u32) {
    (Wrap(s.free + s.used), Wrap(s.used + s.reserved - 4096 * Count(s.cells)))
  }

  /** A page that an operation flips moves 4096 bytes between the counters. */
  ghost function Flipped(op: PageOp, s: Frames, index: nat): Frames
    requires index < |s.cells|
  {
    var step := if Sets(op) then 1 else -1;
    var cells := s.cells[index := Sets(op)];
    if op.Lock? || op.Free?
    then Frames(cells, Wrap(s.free - 4096 * step), s.reserved, Wrap(s.used + 4096 * step))
    else Frames(cells, s.free, Wrap(s.reserved + 4096 * step), s.used)
  }

  lemma AppliedIsFlipped(op: PageOp, s: Frames, address: u32)
    requires Addressable(s)
    ensures ApplyPage(op, s, address)
         == if s.cells[address / 4096] == Sets(op) then s else Flipped(op, s, address / 4096)
  {
  }

  lemma FlippedBalance(op: PageOp, s: Frames, index: nat)
    requires index < |s.cells| && s.cells[index] != Sets(op)
    ensures Balance(Flipped(op, s, index)) == Balance(s)
  {
    var step := if Sets(op) then 1 else -1;
    CountUpdate(s.cells, index, Sets(op));
    if op.Lock? || op.Free? {
      MovedToUsed(s.free, s.used, s.reserved, Count(s.cells), step);
    } else {
      MovedToReserved(s.used, s.reserved, Count(s.cells), step);
    }
  }

  lemma ApplyPageBalance(op: PageOp, s: Frames, address: u32)
    requires Addressable(s)
    ensures Balance(ApplyPage(op, s, address)) == Balance(s)
  {
    AppliedIsFlipped(op, s, address);
    if s.cells[address / 4096] != Sets(op) {
      FlippedBalance(op, s, address / 4096);
    }
  }

  /** 4096 bytes more (or less) are used, and one bit more (or less) is set. */
  lemma MovedToUsed(free: u32, used: u32, reserved: u32, count: nat, step: int)
    ensures Wrap(Wrap(free - 4096 * step) + Wrap(used + 4096 * step)) == Wrap(free + used)
    ensures Wrap(Wrap(used + 4096 * step) + reserved - 4096 * (count + step)) == Wrap(used + reserved - 4096 * count)
  {
    Transfer(free, used, 4096 * step);
    Offset(used, reserved - 4096 * count, 4096 * step);
  }

  lemma MovedToReserved(used: u32, reserved: u32, count: nat, step: int)
    ensures Wrap(used + Wrap(reserved + 4096 * step) - 4096 * (count + step)) == Wrap(used + reserved - 4096 * count)
  {
    Offset(reserved, used - 4096 * count, 4096 * step);
  }

  lemma Transfer(x: u32, y: u32, amount: int)
    ensures Wrap(Wrap(x - amount) + Wrap(y + amount)) == Wrap(x + y)
  {
    WrapAdd(x - amount, Wrap(y + amount));
    WrapAdd(y + amount, x - amount);
  }

  lemma Offset(x: u32, rest: int, amount: int)
    ensures Wrap(Wrap(x + amount) + rest - amount) == Wrap(x + rest)
  {
    WrapAdd(x + amount, rest - amount);
  }

  lemma {:induction false} ApplyPagesBalance(op: PageOp, s: Frames, address: u32, n: nat)
    requires Addressable(s)
    ensures Balance(ApplyPages(op, s, address, n)) == Balance(s)
  {
    if n > 0 {
      ApplyPagesBalance(op, s, address, n - 1);
      ApplyPageBalance(op, ApplyPages(op, s, address, n - 1), PageAddress(address, n - 1));
    }
  }

  /** pfa_request_pages: the pages are locked at the first fit, even when the fit is a truncated tail. */
  ghost function RequestPages(s: Frames, limit: nat, n: nat): Frames
    requires Addressable(s) && limit <= 0x10_0000
  {
    match FirstFit(s.cells, limit, n, 0)
    case None => s
    case Some(start) => ApplyPages(Lock, s, start * 4096, n)
  }

  /** The pointer that a request returns. */
  function RequestAddress(fit: Option<nat>): u32
    requires fit.Some? ==> fit.value < 0x10_0000
  {
    match fit
    case None => 0
    case Some(start) => start * 4096
  }

  /** A request that returns 0 has failed exactly when one of the first n bits of the bitmap is set (or the
      bitmap is empty): otherwise it returns page 0. */
  lemma ZeroMeansFailureExactlyWhen(cells: seq<bool>, limit: nat, n: nat)
    requires limit <= |cells| && limit <= 0x10_0000
    ensures var fit := FirstFit(cells, limit, n, 0);
      (RequestAddress(fit) == 0 ==> fit == None)
      <==> limit == 0 || exists j :: 0 <= j < n && j < limit && cells[j]
  {
    if limit > 0 {
      ZeroExactlyWhen(cells, limit, n);
    }
  }

  /** What a request that finds a full run hands out: n pages from its result on, all of them with a bit below
      limit, that were free and are locked; no other page changes. */
  lemma RequestHandsOut(s: Frames, limit: nat, n: nat)
    requires Addressable(s) && limit <= 0x10_0000 && HasFullRun(s.cells, limit, n)
    ensures var address, t := RequestAddress(FirstFit(s.cells, limit, n, 0)), RequestPages(s, limit, n);
      && address % 4096 == 0 && address / 4096 + n <= limit
      && forall p :: 0 <= p < |s.cells| ==>
           if address <= 4096 * p < address + 4096 * n then !s.cells[p] && t.cells[p] else t.cells[p] == s.cells[p]
  {
    LowestFullRun(s.cells, limit, n);
    LockedRun(s, FirstFit(s.cells, limit, n, 0).value, n);
  }

  lemma LockedRun(s: Frames, start: nat, n: nat)
    requires Addressable(s) && start < 0x10_0000 && start + n <= 0x10_0000
    ensures var t := ApplyPages(Lock, s, start * 4096, n);
      forall p :: 0 <= p < |s.cells| ==> t.cells[p] == if start <= p < start + n then true else s.cells[p]
  {
    PagesCells(Lock, s, start * 4096, n);
    forall p | 0 <= p < |s.cells|
      ensures Visits(start * 4096, n, p) <==> start <= p < start + n
    {
      VisitsRange(start, n, p);
    }
  }

  /** While page 0 is free, a request for one page returns 0, and page 0 is locked. */
  lemma PageZeroHandedOut(s: Frames)
    requires Addressable(s) && !s.cells[0]
    ensures RequestAddress(FirstFit(s.cells, 8, 1, 0)) == 0 && RequestPages(s, 8, 1).cells[0]
  {
    ZeroExactlyWhen(s.cells, 8, 1);
    SinglePage(Lock, s, 0);
  }

  /** Any public or internal operation of the allocator. The single-page ones are the case n == 1. */
  datatype Operation = Pages(op: PageOp, address: u32, n: u32) | Request(n: u32)

  ghost function Step(s: Frames, limit: nat, operation: Operation): (t: Frames)
    requires Addressable(s) && limit <= 0x10_0000
    ensures Addressable(t)
  {
    match operation
    case Pages(op, address, n) => ApplyPages(op, s, address, n)
    case Request(n) => RequestPages(s, limit, n)
  }

  ghost function Run(s: Frames, limit: nat, operations: seq<Operation>): (t: Frames)
    requires Addressable(s) && limit <= 0x10_0000
    ensures Addressable(t)
  {
    if operations == [] then s
    else Step(Run(s, limit, operations[..|operations| - 1]), limit, operations[|operations| - 1])
  }

  /** Conservation over every run, at any addresses and with any counts. */
  lemma {:induction false} Conservation(s: Frames, limit: nat, operations: seq<Operation>)
    requires Addressable(s) && limit <= 0x10_0000
    ensures Balance(Run(s, limit, operations)) == Balance(s)
  {
    if operations != [] {
      var last := |operations| - 1;
      Conservation(s, limit, operations[..last]);
      StepBalance(Run(s, limit, operations[..last]), limit, operations[last]);
    }
  }

  // ----- The bitmap's own bits -----

  /** Every page that a range operation visits has a bit below limit. */
  ghost predicate PagesBelow(address: u32, n: nat, limit: nat) {
    n == 0 || (PagesBelow(address, n - 1, limit) && PageAddress(address, n - 1) / 4096 < limit)
  }

  lemma {:induction false} PagesBelowMeaning(address: u32, n: nat, limit: nat)
    ensures PagesBelow(address, n, limit) <==> forall i :: 0 <= i < n ==> PageAddress(address, i) / 4096 < limit
  {
    if n > 0 {
      PagesBelowMeaning(address, n - 1, limit);
    }
  }

  lemma MorePagesBelow(address: u32, n: nat, limit: nat, more: nat)
    requires PagesBelow(address, n, limit) && limit <= more
    ensures PagesBelow(address, n, more)
  {
    PagesBelowMeaning(address, n, limit);
    PagesBelowMeaning(address, n, more);
  }

  /** A 32-bit address names one of 2^20 pages. */
  lemma AllPagesBelow(address: u32, n: nat)
    ensures PagesBelow(address, n, 0x10_0000)
  {
    PagesBelowMeaning(address, n, 0x10_0000);
  }

  /** An operation that the bitmap covers: its pages have bits, and a request finds a full run or fails. */
  ghost predicate Within(s: Frames, limit: nat, operation: Operation)
    requires limit <= |s.cells|
  {
    match operation
    case Pages(op, address, n) => PagesBelow(address, n, limit)
    case Request(n) => HasFullRun(s.cells, limit, n) || FirstFit(s.cells, limit, n, 0).None?
  }

  lemma FullRunBelow(cells: seq<bool>, limit: nat, n: nat, start: nat)
    requires limit <= |cells| && limit <= 0x10_0000 && FullRun(cells, limit, n, start)
    ensures PagesBelow(start * 4096, n, limit)
  {
    forall i | 0 <= i < n
      ensures PageAddress(start * 4096, i) / 4096 < limit
    {
      assert PageAddress(start * 4096, i) == (start + i) * 4096;
    }
    PagesBelowMeaning(start * 4096, n, limit);
  }

  lemma {:induction false} BehindUntouched(op: PageOp, s: Frames, address: u32, n: nat, limit: nat)
    requires Addressable(s) && limit <= |s.cells| && PagesBelow(address, n, limit)
    ensures ApplyPages(op, s, address, n).cells[limit..] == s.cells[limit..]
  {
    if n > 0 {
      BehindUntouched(op, s, address, n - 1, limit);
    }
  }

  /** The bits behind the bitmap stay exactly when every page visited there has the bit already, for every
      address and count. */
  lemma BehindKeptExactlyWhen(op: PageOp, s: Frames, address: u32, n: nat, limit: nat)
    requires Addressable(s) && limit <= |s.cells|
    ensures ApplyPages(op, s, address, n).cells[limit..] == s.cells[limit..]
        <==> forall p :: limit <= p < |s.cells| && Visits(address, n, p) ==> s.cells[p] == Sets(op)
  {
    var t := ApplyPages(op, s, address, n);
    PagesCells(op, s, address, n);
    if t.cells[limit..] == s.cells[limit..] {
      forall p | limit <= p < |s.cells| && Visits(address, n, p)
        ensures s.cells[p] == Sets(op)
      {
        assert t.cells[limit..][p - limit] == s.cells[limit..][p - limit];
      }
    }
  }

  /** A request leaves them alone exactly when it finds a full run or fails, or the truncated run that it
      locks, wrap-around included, was locked there already. */
  lemma RequestKeepsBehindExactlyWhen(s: Frames, limit: nat, n: nat)
    requires Addressable(s) && limit <= 0x10_0000
    ensures RequestPages(s, limit, n).cells[limit..] == s.cells[limit..]
        <==> match FirstFit(s.cells, limit, n, 0)
             case None => true
             case Some(start) =>
               || HasFullRun(s.cells, limit, n)
               || forall p :: limit <= p < |s.cells| && Visits(start * 4096, n, p) ==> s.cells[p]
  {
    if FirstFit(s.cells, limit, n, 0).Some? {
      var start := FirstFit(s.cells, limit, n, 0).value;
      BehindKeptExactlyWhen(Lock, s, start * 4096, n, limit);
      if HasFullRun(s.cells, limit, n) {
        LowestFullRun(s.cells, limit, n);
        FullRunBelow(s.cells, limit, n, start);
        BehindUntouched(Lock, s, start * 4096, n, limit);
      }
    }
  }

  /** Operations that the bitmap covers change none of the bits behind it. */
  lemma StaysInBitmap(s: Frames, limit: nat, operation: Operation)
    requires Addressable(s) && limit <= 0x10_0000 && Within(s, limit, operation)
    ensures Step(s, limit, operation).cells[limit..] == s.cells[limit..]
  {
    match operation
    case Pages(op, address, n) =>
      BehindUntouched(op, s, address, n, limit);
    case Request(n) =>
      if HasFullRun(s.cells, limit, n) {
        LowestFullRun(s.cells, limit, n);
        var start := FirstFit(s.cells, limit, n, 0).value;
        FullRunBelow(s.cells, limit, n, start);
        BehindUntouched(Lock, s, start * 4096, n, limit);
      }
  }

  /** The balance with the bitmap's own bits alone. */
  ghost function BitmapBalance(s: Frames, limit: nat): (u32, u32)
    requires limit <= |s.cells|
  {
    (Wrap(s.free + s.used), Wrap(s.used + s.reserved - 4096 * Count(s.cells[..limit])))
  }

  /** What happens to the allocator: an operation, or the rest of the kernel writing to the memory behind the
      bitmap. */
  datatype Event = Operate(operation: Operation) | Elsewhere(behind: seq<bool>)

  ghost predicate Covered(s: Frames, limit: nat, e: Event)
    requires limit <= |s.cells|
  {
    match e
    case Operate(operation) => Within(s, limit, operation)
    case Elsewhere(behind) => |behind| == |s.cells| - limit
  }

  ghost function Happen(s: Frames, limit: nat, e: Event): (t: Frames)
    requires Addressable(s) && limit <= 0x10_0000 && Covered(s, limit, e)
    ensures Addressable(t)
  {
    match e
    case Operate(operation) => Step(s, limit, operation)
    case Elsewhere(behind) => s.(cells := s.cells[..limit] + behind)
  }

  ghost predicate AllCovered(s: Frames, limit: nat, events: seq<Event>)
    requires Addressable(s) && limit <= 0x10_0000
    decreases |events|
  {
    events == [] || (Covered(s, limit, events[0]) && AllCovered(Happen(s, limit, events[0]), limit, events[1..]))
  }

  ghost function HappenAll(s: Frames, limit: nat, events: seq<Event>): (t: Frames)
    requires Addressable(s) && limit <= 0x10_0000 && AllCovered(s, limit, events)
    ensures Addressable(t)
    decreases |events|
  {
    if events == [] then s else HappenAll(Happen(s, limit, events[0]), limit, events[1..])
  }

  /** When the bits behind the bitmap stay the same, the two balances agree. */
  lemma BalanceInBitmap(s: Frames, t: Frames, limit: nat)
    requires limit <= |s.cells| && limit <= |t.cells|
    requires t.cells[limit..] == s.cells[limit..] && Balance(t) == Balance(s)
    ensures BitmapBalance(t, limit) == BitmapBalance(s, limit)
  {
    CountSplit(s.cells, limit);
    CountSplit(t.cells, limit);
    SameTaken(s.used + s.reserved, t.used + t.reserved, Count(s.cells), Count(t.cells),
              Count(s.cells[..limit]), Count(t.cells[..limit]), Count(s.cells[limit..]));
  }

  lemma SameTaken(x: int, y: int, c: nat, d: nat, a: nat, b: nat, behind: nat)
    requires c == a + behind && d == b + behind && Wrap(y - 4096 * d) == Wrap(x - 4096 * c)
    ensures Wrap(y - 4096 * b) == Wrap(x - 4096 * a)
  {
    SameAmountOff(y, x, b, a, behind);
  }

  lemma CountSplit(cells: seq<bool>, limit: nat)
    requires limit <= |cells|
    ensures Count(cells) == Count(cells[..limit]) + Count(cells[limit..])
  {
    assert cells == cells[..limit] + cells[limit..];
    CountConcat(cells[..limit], cells[limit..]);
  }

  lemma SameAmountOff(x: int, y: int, a: nat, b: nat, behind: nat)
    requires Wrap(x - 4096 * (a + behind)) == Wrap(y - 4096 * (b + behind))
    ensures Wrap(x - 4096 * a) == Wrap(y - 4096 * b)
  {
    WrapShift(x - 4096 * (a + behind), y - 4096 * (b + behind), 4096 * behind);
  }

  lemma StepBalance(s: Frames, limit: nat, operation: Operation)
    requires Addressable(s) && limit <= 0x10_0000
    ensures Balance(Step(s, limit, operation)) == Balance(s)
  {
    match operation
    case Pages(op, address, n) =>
      ApplyPagesBalance(op, s, address, n);
    case Request(n) =>
      var fit := FirstFit(s.cells, limit, n, 0);
      if fit.Some? {
        ApplyPagesBalance(Lock, s, fit.value * 4096, n);
      }
  }

  /** Over every run of covered operations, whatever is written to the memory behind the bitmap in between,
      free + used stays, and used + reserved follows the set bits of the bitmap. */
  lemma {:induction false} BitmapConservation(s: Frames, limit: nat, events: seq<Event>)
    requires Addressable(s) && limit <= 0x10_0000 && AllCovered(s, limit, events)
    ensures BitmapBalance(HappenAll(s, limit, events), limit) == BitmapBalance(s, limit)
    decreases |events|
  {
    if events != [] {
      var t := Happen(s, limit, events[0]);
      match events[0] {
        case Operate(operation) =>
          StepBalance(s, limit, operation);
          StaysInBitmap(s, limit, operation);
          BalanceInBitmap(s, t, limit);
        case Elsewhere(behind) =>
          assert t.cells[..limit] == s.cells[..limit];
      }
      BitmapConservation(t, limit, events[1..]);
    }
  }

  /** Over every run of covered operations, no bit behind the bitmap changes. */
  lemma {:induction false} RunStaysInBitmap(s: Frames, limit: nat, events: seq<Event>)
    requires Addressable(s) && limit <= 0x10_0000 && AllCovered(s, limit, events)
    requires forall e :: e in events ==> e.Operate?
    ensures HappenAll(s, limit, events).cells[limit..] == s.cells[limit..]
    decreases |events|
  {
    if events != [] {
      assert events[0] in events;
      StaysInBitmap(s, limit, events[0].operation);
      RunStaysInBitmap(Happen(s, limit, events[0]), limit, events[1..]);
    }
  }

  /** A state, of which only the first bits are known. */
  ghost function FirstBits(s: Frames, n: nat): Frames
    requires n <= |s.cells|
  {
    s.(cells := s.cells[..n])
  }

  /** What an operation does to the first bits depends on these bits alone. */
  lemma {:induction false} FirstBitsDecide(op: PageOp, s: Frames, t: Frames, address: u32, n: nat, limit: nat)
    requires Addressable(s) && Addressable(t) && limit <= |s.cells| && limit <= |t.cells|
    requires FirstBits(s, limit) == FirstBits(t, limit) && PagesBelow(address, n, limit)
    ensures FirstBits(ApplyPages(op, s, address, n), limit) == FirstBits(ApplyPages(op, t, address, n), limit)
  {
    if n > 0 {
      FirstBitsDecide(op, s, t, address, n - 1, limit);
      FirstBitsDecideOne(op, ApplyPages(op, s, address, n - 1), ApplyPages(op, t, address, n - 1),
                         PageAddress(address, n - 1), limit);
    }
  }

  lemma FirstBitsDecideOne(op: PageOp, s: Frames, t: Frames, address: u32, limit: nat)
    requires Addressable(s) && Addressable(t) && limit <= |s.cells| && limit <= |t.cells|
    requires FirstBits(s, limit) == FirstBits(t, limit) && address / 4096 < limit
    ensures FirstBits(ApplyPage(op, s, address), limit) == FirstBits(ApplyPage(op, t, address), limit)
  {
    var index := address / 4096;
    assert s.cells[index] == s.cells[..limit][index] && t.cells[index] == t.cells[..limit][index];
    assert s.cells[index := Sets(op)][..limit] == s.cells[..limit][index := Sets(op)];
    assert t.cells[index := Sets(op)][..limit] == t.cells[..limit][index := Sets(op)];
  }

  // ----- Undo -----

  lemma {:induction false} OtherCountersKept(op: PageOp, s: Frames, address: u32, n: nat)
    requires Addressable(s)
    ensures var t := ApplyPages(op, s, address, n);
      if op.Lock? || op.Free? then t.reserved == s.reserved else t.free == s.free && t.used == s.used
  {
    if n > 0 {
      OtherCountersKept(op, s, address, n - 1);
    }
  }

  /** The counters that follow from the bits: locking and freeing move 4096 bytes between free and used for each bit
      that they change, reserving and unreserving to and from reserved. */
  ghost function Following(op: PageOp, s: Frames, cells: seq<bool>): Frames {
    var moved := 4096 * (Count(cells) - Count(s.cells));
    if op.Lock? || op.Free? then Frames(cells, Wrap(s.free - moved), s.reserved, Wrap(s.used + moved))
    else Frames(cells, s.free, Wrap(s.reserved + moved), s.used)
  }

  /** They do after every range operation, for every address and count. */
  lemma CountersFollowBits(op: PageOp, s: Frames, address: u32, n: nat)
    requires Addressable(s)
    ensures var t := ApplyPages(op, s, address, n);
      t == Following(op, s, t.cells)
  {
    OtherCountersKept(op, s, address, n);
    ApplyPagesBalance(op, s, address, n);
    CountersSolved(s, ApplyPages(op, s, address, n));
  }

  /** What equal balance says of one counter, given the others. */
  lemma CountersSolved(s: Frames, t: Frames)
    requires Balance(s) == Balance(t)
    ensures t.reserved == s.reserved ==> t == Following(Lock, s, t.cells) == Following(Free, s, t.cells)
    ensures t.free == s.free && t.used == s.used
        ==> t == Following(Reserve, s, t.cells) == Following(Unreserve, s, t.cells)
  {
    var moved := 4096 * (Count(t.cells) - Count(s.cells));
    if t.reserved == s.reserved {
      UsedSolved(s, t, moved);
    }
    if t.used == s.used {
      Solved(t.reserved, s.reserved, t.used - 4096 * Count(t.cells), moved);
    }
  }

  lemma UsedSolved(s: Frames, t: Frames, moved: int)
    requires Balance(s) == Balance(t) && t.reserved == s.reserved && moved == 4096 * (Count(t.cells) - Count(s.cells))
    ensures t.used == Wrap(s.used + moved) && t.free == Wrap(s.free - moved)
  {
    Solved(t.used, s.used, t.reserved - 4096 * Count(t.cells), moved);
    OtherSolved(t.free, t.used, s.free, s.used, moved);
  }

  lemma Solved(x: u32, y: u32, rest: int, moved: int)
    requires Wrap(x + rest) == Wrap(y + rest + moved)
    ensures x == Wrap(y + moved)
  {
    WrapShift(x + rest, y + rest + moved, -rest);
    WrapSmall(x);
  }

  lemma OtherSolved(x: u32, y: u32, a: u32, b: u32, moved: int)
    requires Wrap(x + y) == Wrap(a + b) && y == Wrap(b + moved)
    ensures x == Wrap(a - moved)
  {
    WrapShift(x + y, a + b, 0 - (y as int));
    WrapSmall(x);
    WrapShift(y, b + moved, a - y - moved);
  }

  /** Two states with the same bits, balance and reserved counter are the same state. */
  lemma BalanceDetermines(s: Frames, t: Frames)
    requires s.cells == t.cells && s.reserved == t.reserved && Balance(s) == Balance(t)
    ensures s == t
  {
    Cancel(s.used, t.used, s.reserved - 4096 * Count(s.cells));
    Cancel(s.free, t.free, s.used);
  }

  lemma Cancel(x: u32, y: u32, d: int)
    requires Wrap(x + d) == Wrap(y + d)
    ensures x == y
  {
    WrapShift(x + d, y + d, -d);
  }

  /** Freeing a range just locked restores every bit and every counter exactly when the whole range
      was free, for every address and count. */
  lemma UndoExactlyWhen(s: Frames, address: u32, n: nat)
    requires Addressable(s)
    ensures ApplyPages(Free, ApplyPages(Lock, s, address, n), address, n) == s
        <==> forall p :: 0 <= p < |s.cells| && Visits(address, n, p) ==> !s.cells[p]
  {
    var locked := ApplyPages(Lock, s, address, n);
    var freed := ApplyPages(Free, locked, address, n);
    PagesCells(Lock, s, address, n);
    PagesCells(Free, locked, address, n);
    if forall p :: 0 <= p < |s.cells| && Visits(address, n, p) ==> !s.cells[p] {
      assert freed.cells == s.cells;
      OtherCountersKept(Lock, s, address, n);
      OtherCountersKept(Free, locked, address, n);
      ApplyPagesBalance(Lock, s, address, n);
      ApplyPagesBalance(Free, locked, address, n);
      BalanceDetermines(freed, s);
    } else {
      var p :| 0 <= p < |s.cells| && Visits(address, n, p) && s.cells[p];
      assert freed.cells[p] != s.cells[p];
    }
  }

  /** Whenever a full run exists, a request can be undone. */
  lemma RequestUndone(s: Frames, limit: nat, n: nat)
    requires Addressable(s) && limit <= 0x10_0000
    requires HasFullRun(s.cells, limit, n)
    ensures var start := FirstFit(s.cells, limit, n, 0);
      start.Some? && ApplyPages(Free, RequestPages(s, limit, n), start.value * 4096, n) == s
  {
    LowestFullRun(s.cells, limit, n);
    var start := FirstFit(s.cells, limit, n, 0).value;
    forall p | 0 <= p < |s.cells| && Visits(start * 4096, n, p)
      ensures !s.cells[p]
    {
      VisitsRange(start, n, p);
    }
    UndoExactlyWhen(s, start * 4096, n);
  }

  // ----- Who owns which frame -----

  datatype Block = Block(start: nat, count: nat)

  ghost predicate Has(b: Block, frame: int) {
    b.start <= frame < b.start + b.count
  }

  ghost predicate Disjoint(a: Block, b: Block) {
    forall frame :: Has(a, frame) ==> !Has(b, frame)
  }

  /** A client that requests frames and frees what it was given. held[0] is the kernel's own block. */
  datatype Client = Client(frames: Frames, held: seq<Block>)

  /** Between the requests, the rest of the kernel writes to the memory behind the bitmap: the heap, the page
      tables and the frames themselves lie there. */
  datatype Action = Obtain(n: u32) | Release(k: nat) | WriteBehind(behind: seq<bool>)

  /** A request finds a full run or fails; only handed-out blocks are freed. */
  ghost predicate Allowed(c: Client, limit: nat, action: Action)
    requires limit <= |c.frames.cells|
  {
    match action
    case Obtain(n) => HasFullRun(c.frames.cells, limit, n) || FirstFit(c.frames.cells, limit, n, 0).None?
    case Release(k) => 1 <= k < |c.held|
    case WriteBehind(behind) => |behind| == |c.frames.cells| - limit
  }

  /** The block that a request hands out, if any. */
  ghost function Obtained(cells: seq<bool>, limit: nat, n: nat): seq<Block>
    requires limit <= |cells|
  {
    match FirstFit(cells, limit, n, 0)
    case None => []
    case Some(start) => [Block(start, n)]
  }

  ghost function Act(c: Client, limit: nat, action: Action): (d: Client)
    requires limit <= 0x10_0000 <= |c.frames.cells| && Allowed(c, limit, action)
    ensures |d.frames.cells| == |c.frames.cells|
  {
    match action
    case Obtain(n) =>
      Client(RequestPages(c.frames, limit, n), c.held + Obtained(c.frames.cells, limit, n))
    case Release(k) =>
      var b := c.held[k];
      Client(ApplyPages(Free, c.frames, Wrap(b.start * 4096), b.count), c.held[..k] + c.held[k + 1..])
    case WriteBehind(behind) =>
      c.(frames := c.frames.(cells := c.frames.cells[..limit] + behind))
  }

  ghost predicate AllAllowed(c: Client, limit: nat, actions: seq<Action>)
    requires limit <= 0x10_0000 <= |c.frames.cells|
    decreases |actions|
  {
    actions == [] ||
    (Allowed(c, limit, actions[0]) && AllAllowed(Act(c, limit, actions[0]), limit, actions[1..]))
  }

  ghost function ActAll(c: Client, limit: nat, actions: seq<Action>): Client
    requires limit <= 0x10_0000 <= |c.frames.cells| && AllAllowed(c, limit, actions)
    decreases |actions|
  {
    if actions == [] then c else ActAll(Act(c, limit, actions[0]), limit, actions[1..])
  }

  ghost predicate Locked(b: Block, cells: seq<bool>, limit: nat)
    requires limit <= |cells|
  {
    && b.start < limit && b.start + b.count <= limit
    && forall frame :: Has(b, frame) ==> cells[frame]
  }

  /** Every held block is in bounds and locked, and no two of them share a frame. */
  ghost predicate Separated(c: Client, limit: nat) {
    && limit <= 0x10_0000 <= |c.frames.cells|
    && (forall b :: b in c.held ==> Locked(b, c.frames.cells, limit))
    && (forall i, j :: 0 <= i < j < |c.held| ==> Disjoint(c.held[i], c.held[j]))
  }

  lemma ObtainSeparates(c: Client, limit: nat, n: u32)
    requires Separated(c, limit) && Allowed(c, limit, Obtain(n))
    ensures Separated(Act(c, limit, Obtain(n)), limit)
  {
    if HasFullRun(c.frames.cells, limit, n) {
      FullRunSeparates(c, limit, n);
    } else {
      assert c.held + [] == c.held;
    }
  }

  lemma FullRunSeparates(c: Client, limit: nat, n: u32)
    requires Separated(c, limit) && HasFullRun(c.frames.cells, limit, n)
    ensures Separated(Act(c, limit, Obtain(n)), limit)
  {
    LowestFullRun(c.frames.cells, limit, n);
    var start := FirstFit(c.frames.cells, limit, n, 0).value;
    PagesCells(Lock, c.frames, start * 4096, n);
    var d := Act(c, limit, Obtain(n));
    forall frame | Has(Block(start, n), frame)
      ensures d.frames.cells[frame] && !c.frames.cells[frame]
    {
      VisitsRange(start, n, frame);
    }
    forall b | b in d.held
      ensures Locked(b, d.frames.cells, limit)
    {
      assert b in c.held || b == Block(start, n);
    }
    forall b | b in c.held
      ensures Disjoint(b, Block(start, n))
    {
      assert Locked(b, c.frames.cells, limit);
    }
  }

  /** Freeing one block leaves every block disjoint from it locked. */
  lemma StaysLocked(s: Frames, limit: nat, a: Block, b: Block)
    requires limit <= 0x10_0000 <= |s.cells|
    requires Locked(a, s.cells, limit) && Locked(b, s.cells, limit) && Disjoint(a, b)
    ensures Locked(a, ApplyPages(Free, s, b.start * 4096, b.count).cells, limit)
  {
    PagesCells(Free, s, b.start * 4096, b.count);
    forall frame | Has(a, frame)
      ensures !Visits(b.start * 4096, b.count, frame)
    {
      VisitsRange(b.start, b.count, frame);
    }
  }

  /** A block in bounds is freed at its own address. */
  lemma ReleaseFrees(c: Client, limit: nat, k: nat, b: Block)
    requires limit <= 0x10_0000 <= |c.frames.cells| && 1 <= k < |c.held| && c.held[k] == b && b.start < limit
    ensures var d := Act(c, limit, Release(k));
      d.frames == ApplyPages(Free, c.frames, b.start * 4096, b.count) && d.held == c.held[..k] + c.held[k + 1..]
  {
    WrapSmall(b.start * 4096);
  }

  lemma ReleaseSeparates(c: Client, limit: nat, k: nat)
    requires Separated(c, limit) && Allowed(c, limit, Release(k))
    ensures Separated(Act(c, limit, Release(k)), limit)
  {
    var d, b := Act(c, limit, Release(k)), c.held[k];
    assert Locked(b, c.frames.cells, limit);
    ReleaseFrees(c, limit, k, b);
    forall a | a in d.held
      ensures Locked(a, d.frames.cells, limit)
    {
      OtherBlock(c, limit, k, a);
      StaysLocked(c.frames, limit, a, b);
    }
    OthersDisjoint(c, k, d.held);
  }

  lemma OthersDisjoint(c: Client, k: nat, left: seq<Block>)
    requires forall i, j :: 0 <= i < j < |c.held| ==> Disjoint(c.held[i], c.held[j])
    requires k < |c.held| && left == c.held[..k] + c.held[k + 1..]
    ensures forall i, j :: 0 <= i < j < |left| ==> Disjoint(left[i], left[j])
  {
    forall i, j | 0 <= i < j < |left|
      ensures Disjoint(left[i], left[j])
    {
      assert left[i] == c.held[if i < k then i else i + 1];
      assert left[j] == c.held[if j < k then j else j + 1];
    }
  }

  lemma OtherBlock(c: Client, limit: nat, k: nat, a: Block)
    requires Separated(c, limit) && k < |c.held| && a in c.held[..k] + c.held[k + 1..]
    ensures a in c.held && Disjoint(a, c.held[k])
  {
    if a in c.held[..k] {
      var i :| 0 <= i < k && c.held[i] == a;
    } else {
      var i :| k < i < |c.held| && c.held[i] == a;
      assert Disjoint(c.held[k], c.held[i]);
    }
  }

  /** What is written behind the bitmap is no concern of the held blocks. */
  lemma WriteBehindSeparates(c: Client, limit: nat, behind: seq<bool>)
    requires Separated(c, limit) && Allowed(c, limit, WriteBehind(behind))
    ensures Separated(Act(c, limit, WriteBehind(behind)), limit)
  {
    var d := Act(c, limit, WriteBehind(behind));
    forall b | b in d.held
      ensures Locked(b, d.frames.cells, limit)
    {
      assert Locked(b, c.frames.cells, limit);
    }
  }

  /** Every action keeps the blocks apart, and the first of them in place. */
  lemma ActSeparates(c: Client, limit: nat, action: Action)
    requires Separated(c, limit) && c.held != [] && Allowed(c, limit, action)
    ensures var d := Act(c, limit, action);
      Separated(d, limit) && d.held != [] && d.held[0] == c.held[0]
  {
    match action
    case Obtain(n) => ObtainSeparates(c, limit, n);
    case Release(k) => ReleaseSeparates(c, limit, k);
    case WriteBehind(behind) => WriteBehindSeparates(c, limit, behind);
  }

  /** Over every run, whatever is written behind the bitmap in between, the frames handed out never overlap
      each other or the kernel, which keeps its block: no live frame is handed out twice. */
  lemma {:induction false} FramesStaySeparated(c: Client, limit: nat, actions: seq<Action>)
    requires Separated(c, limit) && c.held != []
    requires AllAllowed(c, limit, actions)
    ensures var d := ActAll(c, limit, actions);
      Separated(d, limit) && d.held != [] && d.held[0] == c.held[0]
    decreases |actions|
  {
    if actions != [] {
      ActSeparates(c, limit, actions[0]);
      FramesStaySeparated(Act(c, limit, actions[0]), limit, actions[1..]);
    }
  }
}
