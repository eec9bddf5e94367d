# Verified model of the JurasOS kernel core

This project models the parts of the JurasOS i386 kernel that carry unbounded state, and proves their laws with
Dafny 4.11. Run `dafny verify dfyconfig.toml` to check everything.

The code that changes things in place is modelled by classes, arrays and loops in the same shape, with the same
32-bit arithmetic. Each method is proved against a function on values, and the laws are proved about that function.

* **Paging and physical frames** (`Bytes`, `Bitmaps`, `PhysicalMemory`, `RunSearch`, `CellCounts`, `Frames`,
  `FrameAllocator`, `PageTables`, `PageTableManager`, `MappedFrames`). The byte-packed bitmap, the skipping first-fit
  search, the three wrapping counters, and the two-level page table, read back by the walk of section 4.3 ("32-Bit
  Paging") of the Intel SDM, volume 3A. Bitmap and tables lie in one flat memory of bytes; every method says which bytes
  it may change. `MappedFrames` is about both over whole runs.
* **Kernel heap** (`KernelHeap`). The same search at byte granularity; live blocks, bitmap and counter over whole runs
  from `kheap_add` on.
* **printf** (`Numerals`, `IntegerFormat`, `AlternateForm`, `IntegerDecoding`, `FormatSpecs`, `FormatParser`,
  `Conversions`, `Outputs`, `Printf`, `C11Printf`, `ConversionResults`, `PrintfConformance`, `FormatConcatenation`). The
  specification parser, the reversed digit buffer of 32 characters, padding, signs, prefixes, `%c`, `%s`, `%p`, and the
  output functions with their truncation.
  `Conversions.Rendered` is the text that a format and its arguments stand for; every engine method is proved against
  its part of it. It is `None` where C leaves the call undefined (a specification that the format does not finish, an
  argument of the wrong kind) and for conversions to floating point.
  `C11Printf` says what the standard asks for, of a specification as a programmer types it, in terms of characters and
  numbers alone; it shares nothing with the model of the code but the types of the fields, 32-bit words and `Repeat`.
* **Terminal and boot tags** (`Memory`, `TerminalPaper`, `Terminal`, `ConsoleOutput`, `TagList`). The 25x80 screen as
  a window on unbounded paper, `printf` on that screen, `memmove` on overlapping regions, and the walk over the tag list
  of section 3.6.2 of the Multiboot2 specification, version 2.0.

## Where the code does something a reader may not expect

These are kept as the code has them. Where a property fails of some inputs, the exact condition under which it holds is
proved, and an input that fails it is given by a lemma.

* Both contiguous searches stop looking at the end of the bitmap (`kernel/kernel/kheap.c:70`,
  `kernel/arch/i386/paging/page_frame_allocator.c:130`), so a free tail shorter than the run asked for is accepted.
  `RunSearch.TruncatedExactlyWhen`: this happens exactly when no full run exists (`RunSearch.TruncatedRun`). The bits
  marked then lie behind the bitmap. `Frames.RequestKeepsBehindExactlyWhen` says exactly when they stay as they were
  under a page request, `KernelHeap.ChunkKeptExactlyWhen` the same for `kmalloc`, whose chunk lies there.
* `NUM_PAGES` divides by 4098 (`kernel/include/kernel/paging/pfa.h:15`). `FrameAllocation.NumPagesCoversExactlyWhen`
  and `PageTableManagement.KernelLockedExactlyWhen`: a kernel is locked as a whole exactly up to 2049 pages, or when
  the pages left over were locked before. `PageTableManagement.LastKernelPageFree`: the last of 2050 pages stays free.
* The second loop over the memory map passes the address of the entry itself to `pfa_reserve_pages`
  (`kernel/arch/i386/paging/page_frame_allocator.c:84`), although a comment says that it reserves unusable memory.
  `FrameAllocation.BootMarksExactly` says which pages are marked after boot; where the entries say that memory is makes
  no difference to them.
* Page 0 and failure are both 0 (`kernel/arch/i386/paging/page_frame_allocator.c:122`).
  `Frames.ZeroMeansFailureExactlyWhen`: a result of 0 means failure exactly when one of the first bits asked for is set;
  `Frames.PageZeroHandedOut`: while page 0 is free, a request locks it and returns 0.
* `is_kernel == false` sets the user bit of the table entry only; the directory entry stays supervisor, so no address
  is ever accessible to user code (`PageTables.WalkReadsEntries`).
* `kfree` subtracts pointers as `int` (`kernel/kernel/kheap.c:95`). `KernelHeap.FreeIndexExactlyWhen`: it finds the
  block exactly when the block starts less than 2 GiB into the chunk (`KernelHeap.FarBlockNotFound`).
* The ceiling division of the heap wraps around (`kernel/include/kernel/kheap.h:14`).
  `KernelHeap.BlocksCoverExactlyWhen`: the blocks cover the size exactly when the 32-bit sum does not wrap
  (`KernelHeap.HugeSizeGetsNoBlock`), and exactly then they are as few as can (`KernelHeap.BlocksTightExactlyWhen`).
* The last block of the heap can end behind the chunk. `KernelHeap.BlocksEndInChunkExactlyWhen` says exactly when all
  blocks end inside it; `KernelHeap.LastBlockOutside`: 31 bytes in blocks of 4.
* A tab moves by an amount that depends on the row, and can leave the line; a backspace at the origin leaves the screen
  (`kernel/arch/i386/tty.c:69`, `kernel/arch/i386/tty.c:74`). `TerminalPaper.CursorStaysExactlyWhen` gives the exact
  condition under which the cursor stays on the screen; `TerminalPaper.TabLeavesScreen` and
  `TerminalPaper.BackspaceLeavesScreen` are inputs that fail.
* `_ntoa_format` skips precision zeros under `-` and caps everything at 32 characters (`libc/stdio/stdio.c:239`,
  `libc/stdio/stdio.c:273`). `IntegerFormat.ConformsExactlyWhen` says exactly when the text is the one of section
  7.21.6.1 of ISO C11; `IntegerFormat.PrecisionLostWhenLeft`: `%-.3d` of 7 prints `7`. A minus sign that finds no room
  is dropped; `ConversionResults.SignedDecodesExactlyWhen` says when, `ConversionResults.MinusDropped` gives an input.
* A negative `*` precision keeps the precision flag with the value 0 (`libc/stdio/stdio.c:647-651`), where the standard
  takes the precision as omitted. `ConversionResults.NegativePrecisionConformsExactlyWhen`: the text is the standard's
  exactly when the argument is not zero and no zeros were to fill the width; `ConversionResults.ZeroLost`: `%.*d` of 0
  prints nothing. `%s` prints no character of its string then;
  `PrintfConformance.StringSpecConformsExactlyWhen` says when that is no difference.
* `#` takes a numeral that is as long as the width for one that zeros have filled, and trims it
  (`libc/stdio/stdio.c:253-258`). `IntegerDecoding.HashDecodesExactlyWhen` says exactly when the value survives;
  `IntegerDecoding.HashLosesDigits`: `%#2x` of 0xff loses it. `AlternateForm.HashConformsExactlyWhen` says exactly when
  the text is the alternative form of the standard; `AlternateForm.ZeroAdded`: `%#.3o` of 8 prints `0010`.
* The library is built without long long (`libc/Makefile:18`), so `%lld` prints nothing and takes no argument
  (`PrintfConformance.LongLongLost`). `ConversionResults.NothingWantedExactlyWhen`: the standard asks for nothing
  exactly of a zero with precision 0, no width and no sign, outside `%#o`.
* `0 - value` overflows for the least `int` (`libc/stdio/stdio.c:746`). The model wraps around, which gives 2^31.

## Model

| member | source | states |
|---|---|---|
| Bitmaps.WithBitReadsBack | kernel/kernel/bitmap.c:15-25 | the masks of a set change one bit of a byte, most significant bit first, and no other |
| Bitmaps.BitIsBinaryDigit | kernel/kernel/bitmap.c:3-13 | bit k of a byte is its binary digit of value 2^(7 - k), most significant first |
| Bitmaps.BitsFromAt | kernel/kernel/bitmap.c:4-6 | bit i of a buffer is bit i % 8 of byte i / 8, for every index |
| Bitmaps.BitsAfterSet | kernel/kernel/bitmap.c:15-25 | rewriting one bit of one byte is the update of one index of the whole bit sequence |
| Bitmaps.BitsAfterZeroing | kernel/arch/i386/paging/page_frame_allocator.c:107-109 | zeroing n bytes clears the first 8n bits and leaves the rest |
| Bitmaps.BitsDecideBytes | kernel/kernel/bitmap.c:3-25 | from any byte on, the bits of two memories agree if and only if the bytes do |
| Bitmaps.Bitmap.Get | kernel/kernel/bitmap.c:3-13 | returns the indexed bit of the sequence |
| Bitmaps.Bitmap.Set | kernel/kernel/bitmap.c:15-25 | updates the indexed bit; no other bit and no other byte of memory changes |
| PhysicalMemory.StoreWord | kernel/arch/i386/paging/page_table_manager.c:96 | a 32-bit store changes one word of memory, and no byte outside its four |
| PhysicalMemory.StoreBytes | kernel/arch/i386/paging/page_table_manager.c:96 | the four bytes that a 32-bit store leaves, least significant first |
| PhysicalMemory.Zero | libc/string/memset.c:3-8 | memset with 0 zeroes exactly its bytes |
| PhysicalMemory.ZeroWords | kernel/arch/i386/paging/page_table_manager.c:24-36 | seen as words, it zeroes exactly its words |
| RunSearch.FindRun | kernel/arch/i386/paging/page_frame_allocator.c:127-146 | the skipping nested search finds what the naive scan of all starts finds; its bit reads only go up, so each bit is read at most once and there are at most N reads |
| RunSearch.FirstFitIsLeast | kernel/kernel/kheap.c:67-78 | the answer is the least i with [i, min(i+n, N)) clear, or there is none |
| RunSearch.SkipPastSetBit | kernel/kernel/kheap.c:71-75 | skipping past a set bit loses no start |
| RunSearch.LowestFullRun | kernel/arch/i386/paging/page_frame_allocator.c:127-146 | when a full run exists, the result is the lowest one and in bounds |
| RunSearch.ZeroExactlyWhen | kernel/arch/i386/paging/page_frame_allocator.c:127-146 | the answer is 0 if and only if the first n bits are clear, as far as there are that many |
| RunSearch.FailsExactlyWhen | kernel/arch/i386/paging/page_frame_allocator.c:128-145 | for n >= 1 the search fails if and only if there is no full run and the last bit is set |
| RunSearch.TruncatedExactlyWhen | kernel/kernel/kheap.c:70 | the accepted run reaches past the end if and only if no full run exists |
| RunSearch.TruncatedRun | kernel/kernel/kheap.c:70 | an input: two blocks asked for, one free at the end, and the search accepts it |
| RunSearch.AtMostOnceEach | kernel/kernel/kheap.c:67-78 | ascending reads below N are pairwise different and at most N |
| CellCounts.CountUpdate | kernel/kernel/bitmap.c:15-25 | setting a bit changes the number of set bits by the difference of the new and the old bit |
| CellCounts.CountRange | kernel/kernel/kheap.c:80-82 | flipping n equal bits moves the number of set bits by n |
| Frames.OneMorePage | kernel/arch/i386/paging/page_frame_allocator.c:213-223 | a range operation is one page operation per round, at address + i * 4096 with both operations wrapping |
| Frames.PagesCells | kernel/arch/i386/paging/page_frame_allocator.c:213-255 | a range operation sets or clears exactly the pages it visits, for every address and count |
| Frames.VisitsRange | kernel/arch/i386/paging/page_frame_allocator.c:213-223 | without wrap-around these are count consecutive pages |
| Frames.BehindKeptExactlyWhen | kernel/arch/i386/paging/page_frame_allocator.c:213-255 | a range operation leaves the bits from any bit on as they are if and only if every page that it visits there has the bit already, wrap-around included |
| Frames.RequestKeepsBehindExactlyWhen | kernel/arch/i386/paging/page_frame_allocator.c:126-146 | a request leaves the bits behind the bitmap as they are if and only if it fails, finds a full run, or the truncated run that it locks was locked there |
| Frames.RequestHandsOut | kernel/arch/i386/paging/page_frame_allocator.c:112-146 | a request that finds a full run returns a page address below the limit, and exactly the n pages from there on, all free before, are locked; no other page changes |
| Frames.ZeroMeansFailureExactlyWhen | kernel/arch/i386/paging/page_frame_allocator.c:112-146 | a result of 0 means that the request failed if and only if one of the first n bits of the bitmap is set, or it has none |
| Frames.PageZeroHandedOut | kernel/arch/i386/paging/page_frame_allocator.c:118-122 | an input where it does not: page 0 is free, the result is 0, and page 0 is locked |
| Frames.ApplyPageBalance | kernel/arch/i386/paging/page_frame_allocator.c:191-243 | lock, free, reserve and unreserve keep free + used, and the gap between counted and marked memory, modulo 2^32 |
| Frames.Conservation | kernel/arch/i386/paging/page_frame_allocator.c:112-255 | both are kept by every run of operations and requests, at any addresses and counts, truncated runs included |
| Frames.StaysInBitmap | kernel/arch/i386/paging/page_frame_allocator.c:112-255 | an operation on pages that have a bit, or a request that finds a full run or fails, changes no bit behind the bitmap |
| Frames.BitmapConservation | kernel/arch/i386/paging/page_frame_allocator.c:112-255 | over every run of such operations, whatever else is written behind the bitmap in between, free + used stays and used + reserved follows 4096 per set bit of the bitmap itself, modulo 2^32 |
| Frames.RunStaysInBitmap | kernel/arch/i386/paging/page_frame_allocator.c:112-255 | over every run of such operations, no bit behind the bitmap changes |
| Frames.FirstBitsDecide | kernel/arch/i386/paging/page_frame_allocator.c:213-255 | what a range operation on pages that have a bit does to the counters and to the bitmap depends on these alone |
| Frames.OtherCountersKept | kernel/arch/i386/paging/page_frame_allocator.c:191-243 | locking and freeing leave the reserved counter alone, reserving and unreserving the other two |
| Frames.CountersFollowBits | kernel/arch/i386/paging/page_frame_allocator.c:191-255 | what a range operation does to the three counters, for every address and count: lock and free move 4096 bytes between free and used per bit that they change, reserve and unreserve to and from reserved |
| Frames.UndoExactlyWhen | kernel/arch/i386/paging/page_frame_allocator.c:213-223 | freeing what was just locked restores every bit and counter if and only if all of it was free |
| Frames.RequestUndone | kernel/arch/i386/paging/page_frame_allocator.c:126-146 | when a full run exists, freeing a request restores every bit and counter |
| Frames.ObtainSeparates | kernel/arch/i386/paging/page_frame_allocator.c:126-146 | a request that finds a full run or fails hands out no frame that a held block contains |
| Frames.ReleaseSeparates | kernel/arch/i386/paging/page_frame_allocator.c:213-217 | freeing one block leaves all others locked and disjoint |
| Frames.WriteBehindSeparates | kernel/arch/i386/paging/page_frame_allocator.c:112-255 | what the rest of the kernel writes behind the bitmap moves no held block |
| Frames.FramesStaySeparated | kernel/arch/i386/paging/page_frame_allocator.c:112-255 | over every run of requests and releases, whatever is written behind the bitmap in between, held blocks are locked, in bounds and pairwise disjoint, and the first block stays |
| FrameAllocation.NumPagesCoversExactlyWhen | kernel/include/kernel/paging/pfa.h:15 | NUM_PAGES counts all pages of k whole pages if and only if k <= 2049 |
| FrameAllocation.NumPagesBounds | kernel/include/kernel/paging/pfa.h:15 | NUM_PAGES is the number of whole pieces of 4098 bytes and one more |
| FrameAllocation.BitmapCoversMemory | kernel/arch/i386/paging/page_frame_allocator.c:71 | the bitmap has a bit for each page below memory_size, for at most 8 pages more, and never more than 2^20 bits |
| FrameAllocation.FramesInMemory | kernel/arch/i386/paging/page_frame_allocator.c:71-146 | after boot, a request that finds a full run hands out pages that end at or below page memory_size / 4096 + 8 |
| FrameAllocation.HeldFramesInMemory | kernel/arch/i386/paging/page_frame_allocator.c:71-146 | and so do all blocks held, after every run of requests and releases |
| FrameAllocation.EntryAddressIs | kernel/arch/i386/paging/page_frame_allocator.c:41-42 | entry i of the memory map lies 16 + i * entry_size bytes into the tag |
| FrameAllocation.LengthsOfOneMore | kernel/arch/i386/paging/page_frame_allocator.c:41-48 | an entry adds its length to the memory, and to the available memory if and only if its type is 1 |
| FrameAllocation.EntrySteps | kernel/arch/i386/paging/page_frame_allocator.c:41-42 | stepping by entry_size meets every memory-map entry once and ends behind the last |
| FrameAllocation.ReserveEntriesBalance | kernel/arch/i386/paging/page_frame_allocator.c:80-86 | the reserving loop keeps the balance |
| FrameAllocation.ReserveEntriesKeep | kernel/arch/i386/paging/page_frame_allocator.c:80-86 | and leaves free and used alone |
| FrameAllocation.BootBalance | kernel/arch/i386/paging/page_frame_allocator.c:70-86 | booting keeps the balance of a state with a cleared bitmap |
| FrameAllocation.BootMarksExactly | kernel/arch/i386/paging/page_frame_allocator.c:70-86 | for every page, whether it is marked after boot: exactly those of the bitmap, those that the second loop reaches from the entries' own addresses, and those marked behind the bitmap before |
| FrameAllocation.BootStaysInBitmap | kernel/arch/i386/paging/page_frame_allocator.c:70-86 | when the bitmap has bits for all pages locked and reserved at boot, booting changes no bit behind it |
| FrameAllocation.BootCounts | kernel/arch/i386/paging/page_frame_allocator.c:70-86 | it then counts 4096 for each bit set in the bitmap, and keeps free + used |
| FrameAllocation.BootCounters | kernel/arch/i386/paging/page_frame_allocator.c:70-86 | the counters after any boot: the pages that hold the bitmap have moved from free to used, and what the second loop marked is reserved |
| FrameAllocation.ConservationSinceBoot | kernel/arch/i386/paging/page_frame_allocator.c:29-255 | after such a boot and every run of such operations, whatever the rest of the kernel writes behind the bitmap in between, free + used is the available length read at boot, and used + reserved is 4096 per set bit of the bitmap, modulo 2^32 |
| FrameAllocation.ConservationAnywhere | kernel/arch/i386/paging/page_frame_allocator.c:29-255 | after any boot and any run of operations at any addresses, with nothing else writing behind the bitmap, used + reserved is 4096 per bit set since the bitmap was cleared, modulo 2^32 |
| FrameAllocation.FrameAllocator.LockPage | kernel/arch/i386/paging/page_frame_allocator.c:202-211 | the whole new state; of all memory, only the byte that holds the page's bit may change |
| FrameAllocation.FrameAllocator.FreePage | kernel/arch/i386/paging/page_frame_allocator.c:191-200 | the whole new state; of all memory, only the byte that holds the page's bit may change |
| FrameAllocation.FrameAllocator.ReservePage | kernel/arch/i386/paging/page_frame_allocator.c:235-243 | the whole new state; of all memory, only the byte that holds the page's bit may change |
| FrameAllocation.FrameAllocator.UnreservePage | kernel/arch/i386/paging/page_frame_allocator.c:225-233 | the whole new state; of all memory, only the byte that holds the page's bit may change |
| FrameAllocation.FrameAllocator.LockPages | kernel/arch/i386/paging/page_frame_allocator.c:219-223 | the loop is the range operation, for every address and count; when the bitmap has bits for the pages, no byte outside it changes |
| FrameAllocation.FrameAllocator.FreePages | kernel/arch/i386/paging/page_frame_allocator.c:213-217 | the loop is the range operation, for every address and count; when the bitmap has bits for the pages, no byte outside it changes |
| FrameAllocation.FrameAllocator.ReservePages | kernel/arch/i386/paging/page_frame_allocator.c:251-255 | the loop is the range operation, for every address and count; when the bitmap has bits for the pages, no byte outside it changes |
| FrameAllocation.FrameAllocator.UnreservePages | kernel/arch/i386/paging/page_frame_allocator.c:245-249 | the loop is the range operation, for every address and count; when the bitmap has bits for the pages, no byte outside it changes |
| FrameAllocation.FrameAllocator.RequestPage | kernel/arch/i386/paging/page_frame_allocator.c:113-123 | locks the first fit of one page and returns its address, or returns 0 and changes nothing; no byte outside the bitmap changes |
| FrameAllocation.FrameAllocator.RequestContiguous | kernel/arch/i386/paging/page_frame_allocator.c:127-146 | locks the first fit of page_count pages and returns its address, or returns 0 and changes nothing; unless the run is a truncated one, no byte outside the bitmap changes |
| FrameAllocation.FrameAllocator.InitBitmap | kernel/arch/i386/paging/page_frame_allocator.c:103-110 | clears the bitmap's own bits and no other byte |
| FrameAllocation.FrameAllocator.SumLengths | kernel/arch/i386/paging/page_frame_allocator.c:41-48 | memory_size and free_memory are the wrapped sums of all and of the available lengths |
| FrameAllocation.FrameAllocator.ReserveUnavailable | kernel/arch/i386/paging/page_frame_allocator.c:80-86 | reserves NUM_PAGES of each unavailable entry at the entry's own address, and which bytes that may change |
| FrameAllocation.FrameAllocator.ReadMemoryMap | kernel/arch/i386/paging/page_frame_allocator.c:29-101 | the three outcomes (already initialised, PANIC, booted), each with its whole new state, the new KERNEL_END, which moves by memory_size / 32768 + 1, and the bytes that may change |
| PageTables.OrBits | kernel/arch/i386/paging/page_table_manager.c:91-94 | the ORs set present and writable and never touch the frame number |
| PageTables.WalkReadsEntries | kernel/arch/i386/paging/page_table_manager.c:62-98 | from phys_entries the hardware finds what the software wrote, for every linear address; never a user page |
| PageTables.TableArithmetic | kernel/arch/i386/paging/page_table_manager.c:86-87 | the two-level lookup reaches the word that the page number selects among all 1024 tables |
| PageTables.FlagsMeaning | kernel/arch/i386/paging/page_table_manager.c:91-96 | a written entry is present, keeps the frame, and is writable when asked for |
| PageTables.UserBitExactlyWhen | kernel/arch/i386/paging/page_table_manager.c:93-95 | the user bit of an entry is set if and only if the page is not the kernel's, or the address passed in had that bit |
| PageTables.EntryKept | kernel/arch/i386/paging/page_table_manager.c:90 | over every sequence of calls, an entry that is there, or that no call names, never changes |
| PageTables.FirstMappingWins | kernel/arch/i386/paging/page_table_manager.c:62-98 | over every sequence of calls, the first call for a page decides its frame and flags |
| PageTables.IdentityKept | kernel/arch/i386/paging/page_table_manager.c:62-98 | calls that map addresses to themselves keep all translations the identity |
| PageTables.IdentityWalk | kernel/arch/i386/paging/page_table_manager.c:62-98 | then the hardware translates an address to itself or not at all, and it does if and only if the entry is there |
| PageTables.EntryWritten | kernel/arch/i386/paging/page_table_manager.c:96 | writing a table entry changes one translation, and never the directory or another table |
| PageTables.MapOneWritten | kernel/arch/i386/paging/page_table_manager.c:62-98 | on a complete directory a call is put-if-absent on the entries, and abort is not reached |
| PageTableManagement.PageTableManager.MapAddr | kernel/arch/i386/paging/page_table_manager.c:62-98 | the one word that changes, if any, in the whole of memory; failure if and only if the directory entry is empty; no byte outside the tables changes |
| PageTableManagement.TableAdded | kernel/arch/i386/paging/page_table_manager.c:33-45 | a new table lies beyond all others and keeps them |
| PageTableManagement.AllTablesComplete | kernel/arch/i386/paging/page_table_manager.c:28-47 | after 1024 rounds the directory is complete and all entries are empty |
| PageTableManagement.PageTableManager.PlaceDirectory | kernel/arch/i386/paging/page_table_manager.c:17-25 | KERNEL_END is rounded up, the directory is placed there and cleared, phys_addr is its address |
| PageTableManagement.PageTableManager.AddTable | kernel/arch/i386/paging/page_table_manager.c:29-46 | exactly which words of memory one round of the table loop writes: one more empty table, with the earlier ones kept |
| PageTableManagement.PageTableManager.NewTable | kernel/arch/i386/paging/page_table_manager.c:33-45 | an empty table is placed at KERNEL_END, which moves behind it, and exactly its words and its two directory words are written |
| PageTableManagement.PageTableManager.EnterTable | kernel/arch/i386/paging/page_table_manager.c:38-45 | the directory entry and its physical copy, with their flags, are the two words that change |
| PageTableManagement.PageTableManager.BuildDirectory | kernel/arch/i386/paging/page_table_manager.c:17-47 | directory and 1024 tables are disjoint, and memory outside them is unchanged |
| PageTableManagement.KernelPageMapped | kernel/arch/i386/paging/page_table_manager.c:49-51 | mapping the next page extends the identity map by one page |
| PageTableManagement.PageTableManager.MapKernel | kernel/arch/i386/paging/page_table_manager.c:49-51 | after the loop everything below KERNEL_END is mapped to itself and nothing else is mapped |
| PageTableManagement.WalkAfterInitialize | kernel/arch/i386/paging/page_table_manager.c:15-58 | the hardware sends every address below KERNEL_END to itself, present, writable and supervisor, and finds nothing at or above it |
| PageTableManagement.TablesKept | kernel/arch/i386/paging/page_table_manager.c:15-59 | bytes written outside directory and tables leave the address translation as it is |
| PageTableManagement.PageTableManager.LockKernel | kernel/arch/i386/paging/page_table_manager.c:53-56 | locks NUM_PAGES of the bytes from KERNEL_START to KERNEL_END, keeps the tables, and which bytes may change |
| PageTableManagement.PageTableManager.Initialize | kernel/arch/i386/paging/page_table_manager.c:15-59 | all of the above in one memory, from any KERNEL_END that does not wrap and lies behind the bitmap: the identity map the hardware sees, KERNEL_END moved 1027 pages on, the state that KernelNeverHandedOut starts from, with every kernel page locked when KERNEL_START and KERNEL_END are page addresses, the bitmap has the pages and NUM_PAGES counts them or the rest was locked, and every other byte unchanged |
| PageTableManagement.KernelIsLocked | kernel/arch/i386/paging/page_table_manager.c:53-56 | locking NUM_PAGES of a kernel of whole pages locks each of its pages when NUM_PAGES counts them all or those left over were locked |
| PageTableManagement.KernelLockedExactlyWhen | kernel/arch/i386/paging/page_table_manager.c:54-56 | a kernel of k pages ends up locked if and only if k <= 2049 or the uncounted pages were locked before |
| PageTableManagement.LastKernelPageFree | kernel/include/kernel/paging/pfa.h:15 | an input: of 2050 kernel pages at 1 MiB, the last stays free |
| PageTableManagement.KernelNeverHandedOut | kernel/arch/i386/paging/page_table_manager.c:54-56 | from any state whose first bits are those that locking the kernel leaves, as ptm_initialize ensures, with k <= 2049 or the uncounted pages locked before: no run of requests and releases, whatever is written behind the bitmap in between, hands out a kernel frame, and live frames stay disjoint |
| PageTableManagement.RequestedPagesMapped | kernel/arch/i386/paging/page_frame_allocator.c:179-181 | the hardware translates every address of mapped requested pages to itself, and other identities stay |
| MappedFrames.BelowIsIdentity | kernel/arch/i386/paging/page_table_manager.c:49-51 | the entries that ptm_initialize leaves are all identities |
| MappedFrames.RunMaps | kernel/arch/i386/paging/page_frame_allocator.c:148-189 | over every run of mapped requests and releases, the entries stay identities and every frame of a held block has one |
| MappedFrames.HeldFramesMapped | kernel/arch/i386/paging/page_frame_allocator.c:148-189 | from ptm_initialize on, over every such run, whatever is written behind the bitmap in between: the kernel keeps its frames, no frame is held twice, and the hardware translates every address of a held frame to itself, for the supervisor only |
| PageTableManagement.PageTableManager.RequestMappedPages | kernel/arch/i386/paging/page_frame_allocator.c:164-189 | in one memory with the bitmap before the tables: maps each page of the first fit to itself and locks it, or returns 0 and changes nothing; no byte outside bitmap and tables changes |
| PageTableManagement.PageTableManager.RequestMappedPage | kernel/arch/i386/paging/page_frame_allocator.c:149-161 | the same for one page, whose bit the bitmap always has |
| PageTableManagement.PageTableManager.MapAndLock | kernel/arch/i386/paging/page_frame_allocator.c:154-155 | mapping a free page and then locking it change the page's entry and the page's bit, and neither step disturbs the other |
| KernelHeap.BlocksCoverExactlyWhen | kernel/include/kernel/kheap.h:14 | the blocks cover the bytes asked for if and only if the 32-bit sum does not wrap |
| KernelHeap.BlocksTightExactlyWhen | kernel/include/kernel/kheap.h:14 | n blocks with (n - 1) * granularity < size <= n * granularity, and none for size 0, if and only if the sum does not wrap |
| KernelHeap.HugeSizeGetsNoBlock | kernel/include/kernel/kheap.h:14 | an input that wraps: a size of 2^32 - 1 gets no block |
| KernelHeap.FreeIndexExactlyWhen | kernel/kernel/kheap.c:95 | kfree recovers the block index if and only if the block starts below 2 GiB in the chunk |
| KernelHeap.TruncatedMeaning | kernel/kernel/kheap.c:95 | the int division rounds toward zero, on both sides of it |
| KernelHeap.FarBlockNotFound | kernel/kernel/kheap.c:95 | an input beyond 2 GiB: the index is negative |
| KernelHeap.AllocateKeepsRecord | kernel/kernel/kheap.c:63-85 | after an allocation, live blocks are in bounds and disjoint, and a bit is set if and only if some block covers it |
| KernelHeap.ReleaseKeepsRecord | kernel/kernel/kheap.c:91-101 | the same after a release |
| KernelHeap.AllocateKeepsCounts | kernel/kernel/kheap.c:83 | after an allocation, used is the sum of live sizes, and the number of set bits the sum of live blocks |
| KernelHeap.ReleaseKeepsCounts | kernel/kernel/kheap.c:97-100 | the same after a release |
| KernelHeap.HeapStaysExact | kernel/kernel/kheap.c:63-101 | all of this over every run of matching allocations and frees, from any heap of which it holds |
| KernelHeap.UndoExactlyWhen | kernel/kernel/kheap.c:80-99 | clearing what was just marked restores the bitmap if and only if all of it was clear |
| KernelHeap.AllocationUndone | kernel/kernel/kheap.c:63-101 | while a full run exists, allocating and freeing restores bitmap, counter and live blocks |
| KernelHeap.BlocksStartInChunk | kernel/kernel/kheap.c:38 | every block that has a bit starts inside the chunk |
| KernelHeap.BlocksEndInChunkExactlyWhen | kernel/kernel/kheap.c:38 | all blocks end inside the chunk if and only if the granularity divides it, or the number of blocks is no multiple of 8, or the size wraps |
| KernelHeap.LastBlockOutside | kernel/kernel/kheap.c:38 | an input: 31 bytes in blocks of 4 give a block that ends outside |
| KernelHeap.LiveBytesSeparate | kernel/kernel/kheap.c:63-101 | no byte belongs to two live blocks of an exact heap |
| KernelHeap.LiveBytesEnd | kernel/kernel/kheap.c:63-85 | a live block of an exact heap ends at or before the end of the last block |
| KernelHeap.UsedIsExact | kernel/kernel/kheap.c:83-100 | used is the plain sum of live sizes, and at most what the blocks hold |
| KernelHeap.LittleWasted | kernel/kernel/kheap.c:63-100 | the live blocks take up less than one block more, each, than the sizes asked for |
| KernelHeap.FreshIsExact | kernel/kernel/kheap.c:34-50 | what kheap_add leaves is an exact heap, whatever the size and the granularity |
| KernelHeap.HeapIsSound | kernel/kernel/kheap.c:34-101 | from kheap_add on, after every run of allocations that find a full run and of frees that match them, with sizes that do not wrap: the set bits are exactly the live blocks, each as few blocks as cover its size, used is the sum of the live sizes, no byte belongs to two live blocks, and all of them lie in the chunk when the blocks do |
| KernelHeap.ChunkKeptExactlyWhen | kernel/kernel/kheap.c:80-82 | what kmalloc marks leaves every byte of the chunk unchanged if and only if a full run exists, or every bit behind the bitmap that it marks was set |
| KernelHeap.MallocIsAllocate | kernel/kernel/kheap.c:63-85 | what the code does to the bits of memory is the allocation of the laws |
| KernelHeap.FreeIsRelease | kernel/kernel/kheap.c:91-101 | what the code does with a live pointer is the release of the laws |
| KernelHeap.Heap.MemorySizeOf | kernel/kernel/kheap.c:52-60 | header, bitmap and chunk, as one wrapped sum |
| KernelHeap.KernelsOwnHeap | kernel/kernel/kernel.c:61-67 | the heap of kernel_main, half a megabyte in blocks of 4, has 2^17 blocks, all inside the chunk, and takes 540700 bytes |
| KernelHeap.Heap.Add | kernel/kernel/kheap.c:34-50 | the three regions follow each other, exactly these bytes are zeroed, and the heap is the fresh one of the laws |
| KernelHeap.Heap.Malloc | kernel/kernel/kheap.c:63-89 | the pointer, bits, counter and live blocks of the first fit, or PANIC with nothing changed; no byte without a marked bit changes, and the chunk is unchanged exactly as above; with a full run it is the allocation of the laws |
| KernelHeap.Heap.MarkRun | kernel/kernel/kheap.c:80-82 | marks the run that was found; the chunk is unchanged exactly as above |
| KernelHeap.Heap.LiveMayBeFreed | kernel/kernel/kheap.c:95 | the pointer of a live block that starts below 2 GiB leads to its bits, all of them in the bitmap |
| KernelHeap.Heap.PointerTo | kernel/kernel/kheap.c:84 | the pointer of an index lies in the chunk and does not wrap |
| KernelHeap.Heap.Free | kernel/kernel/kheap.c:91-101 | the bits and the counter after a free; no byte without a cleared bit changes; with the pointer and size of a live block it is the release of the laws |
| KernelHeap.Heap.MarkRange | kernel/kernel/kheap.c:80-82 | the loop sets exactly the range |
| Numerals.EvalDigits | libc/stdio/stdio.c:302-306 | the digits of a value evaluate to the value, in every base up to 16 |
| Numerals.AtMost32Digits | libc/stdio/stdio.c:292 | a 32-bit value never has more digits than the buffer |
| Numerals.AllDigits | libc/stdio/stdio.c:304 | every character written is a digit of the base |
| Numerals.LeadingDigit | libc/stdio/stdio.c:306 | a nonzero numeral has no leading zero |
| IntegerFormat.ConformsExactlyWhen | libc/stdio/stdio.c:208-310 | an integer without '#' is printed as section 7.21.6.1 of ISO C11 asks, character by character, if and only if the condition on lengths holds |
| IntegerFormat.PrecisionLostWhenLeft | libc/stdio/stdio.c:239 | an input that fails: 7 with precision 3, left-justified |
| IntegerFormat.NoPrecisionExactlyWhen | libc/stdio/stdio.c:641-653 | the standard asks for the same with precision 0 and with none if and only if the value is not zero and no zeros fill the width |
| IntegerFormat.LeftConforms | libc/stdio/stdio.c:239 | left-justified: if and only if the precision adds no zeros and digits and sign fit 32 characters |
| IntegerFormat.ZeroPadConforms | libc/stdio/stdio.c:240-248 | zero-padded: if and only if width, digits and sign fit 32 characters |
| IntegerFormat.PlainConforms | libc/stdio/stdio.c:243-283 | otherwise: if and only if precision zeros and sign fit, or a pad blank stands in for a dropped blank sign |
| AlternateForm.HashConformsExactlyWhen | libc/stdio/stdio.c:236-310 | with '#', a value in base 8 or 16 is printed in the alternative form of section 7.21.6.1 of ISO C11, character by character, if and only if the condition on lengths holds, for every value, width, precision and flags |
| AlternateForm.ZeroAdded | libc/stdio/stdio.c:252-271 | an input that fails: 8 in base 8 with precision 3 |
| AlternateForm.HashZeros | libc/stdio/stdio.c:246-258 | zero-padded: if and only if what is trimmed are zeros and the width fits 32 characters |
| AlternateForm.HashPrecision8 | libc/stdio/stdio.c:243-271 | base 8 with a precision, blanks on the left: if and only if the precision adds no zeros, or fills the buffer |
| AlternateForm.HashPrecision16 | libc/stdio/stdio.c:243-271 | base 16 with a precision, blanks on the left: if and only if all of it fits 32 characters |
| AlternateForm.NoHashPrecisionExactlyWhen | libc/stdio/stdio.c:641-653 | the standard asks for the same with precision 0 and with none, of a value that is not zero, if and only if no zeros fill the width |
| IntegerDecoding.IntegerDecodes | libc/stdio/stdio.c:236-310 | without '#', stripping padding and sign and evaluating the digits returns the value, for every value, base, width and precision |
| IntegerDecoding.MinusShownExactlyWhen | libc/stdio/stdio.c:273-276 | '-' is printed if and only if the number is negative and zeros leave room |
| IntegerDecoding.TextDecodesAsTrimmed | libc/stdio/stdio.c:208-286 | blanks, sign and prefix never change the value; only the trimming can |
| IntegerDecoding.TrimmedDecodesExactlyWhen | libc/stdio/stdio.c:253-258 | dropping leading characters keeps the value if and only if they are padding |
| IntegerDecoding.HashDecodesExactlyWhen | libc/stdio/stdio.c:238-271 | with '#', a nonzero value is read back if and only if its digits are not mistaken for padding, for bases 2, 8 and 16 and any width and precision |
| IntegerDecoding.HashLosesDigits | libc/stdio/stdio.c:253-258 | an input that is lost: 0xff with '#' and width 2 |
| FormatSpecs.FlagsReadBack | libc/stdio/stdio.c:610-621 | flags in any order and number are read as the set of them, and reading stops behind them |
| FormatSpecs.NumberReadBack | libc/stdio/stdio.c:197-204 | a decimal numeral is read back, for every 32-bit number |
| FormatSpecs.SpecReadBack | libc/stdio/stdio.c:610-689 | any flags, any width and precision, as numbers or as '*' with an argument of either sign, and any length, written as text, are read back, and reading ends behind them and behind their arguments |
| FormatSpecs.NoPrecisionIsZero | libc/stdio/stdio.c:641-653 | the precision is 0 where none is given |
| FormatParser.Atoi | libc/stdio/stdio.c:197-204 | the loop computes the value of all digits modulo 2^32 and stops behind the last digit |
| FormatParser.ParseFlags | libc/stdio/stdio.c:611-621 | the do loop reads the flags as specified |
| FormatParser.ParseWidth | libc/stdio/stdio.c:624-638 | digits, or an argument whose sign asks for left justification |
| FormatParser.ParsePrecision | libc/stdio/stdio.c:641-653 | digits, an argument cut at zero, or zero behind a lone '.' |
| FormatParser.ParseLength | libc/stdio/stdio.c:656-689 | the length flags, with 32-bit long, size_t and ptrdiff_t |
| FormatParser.ParseSpec | libc/stdio/stdio.c:610-689 | the four fields in order, and the arguments they take |
| Outputs.EmitConcat | libc/stdio/stdio.c:136-164 | writing two texts one after the other is writing their concatenation, for every output function and where the index wraps |
| Outputs.EmittedBuffer | libc/stdio/stdio.c:136-141 | each character lands at its own index if that is below maxlen; nothing else changes |
| Outputs.EmittedConsole | libc/stdio/stdio.c:152-164 | the terminal is given the text without '\0' characters |
| Outputs.VisibleMeaning | libc/stdio/stdio.c:152-164 | a text without '\0' is given to the terminal as it is; of any other, no '\0' |
| Outputs.VisibleConcat | libc/stdio/stdio.c:152-164 | and two texts one behind the other as their parts |
| Outputs.EmittedNull | libc/stdio/stdio.c:145-148 | the null output changes nothing |
| Outputs.TerminatedIsTruncation | libc/stdio/stdio.c:862-863 | text and '\0' leave the prefix of length min(len, count - 1), the '\0', and everything behind untouched; a count of 0 writes nothing |
| Printf.Printer.Put | libc/stdio/stdio.c:136-164 | one call of an output function is one step of the specification |
| Printf.Printer.OutRev | libc/stdio/stdio.c:208-232 | writes the reversed buffer and its padding, blanks on the side that the flags ask for |
| Printf.PadZeros | libc/stdio/stdio.c:239-249 | the buffer holds the numeral with its precision and width zeros, capped at 32 |
| Printf.Prefix | libc/stdio/stdio.c:252-271 | the buffer after trimming, with mark and zero as far as there is room |
| Printf.AddSign | libc/stdio/stdio.c:273-283 | the sign, if there is room |
| Printf.ReverseDigits | libc/stdio/stdio.c:301-307 | the digit loop leaves the digits of the value in reverse and ends within 32 characters |
| Printf.Printer.NtoaFormat | libc/stdio/stdio.c:236-286 | writes the formatted text, into whatever sink, from whatever index |
| Printf.Printer.NtoaLong | libc/stdio/stdio.c:290-310 | writes the text of an integer |
| Printf.Strnlen | libc/stdio/stdio.c:180-185 | the length, limited by maxsize |
| Printf.BaseAndFlags | libc/stdio/stdio.c:700-729 | the base, and which flags each integer conversion keeps; PrintfConformance.BaseAsWritten gives the base of each letter |
| Printf.Printer.ConvertInteger | libc/stdio/stdio.c:699-766 | the seven integer conversions with their lengths and signs |
| Printf.Printer.ConvertChar | libc/stdio/stdio.c:786-804 | %c with its padding |
| Printf.Printer.ConvertString | libc/stdio/stdio.c:806-830 | %s with its precision and padding |
| Printf.Printer.Convert | libc/stdio/stdio.c:692-859 | each conversion writes its text and takes its argument |
| Printf.Printer.FormatAll | libc/stdio/stdio.c:596-860 | the main loop writes the text that the format stands for |
| Printf.Printer.Vsnprintf | libc/stdio/stdio.c:586-867 | writes the text of the format and the '\0', and returns the length as an int |
| Printf.Snprintf | libc/stdio/stdio.c:893-900 | for every format, arguments and count, the result does not depend on the count and the buffer is the truncation of section 7.21.6.5 of ISO C11; without a buffer nothing is written |
| Printf.PrintToTerminal | libc/stdio/stdio.c:872-880 | the terminal is given the text |
| ConversionResults.ConversionConformsExactlyWhen | libc/stdio/stdio.c:699-766 | a whole integer conversion, flags and lengths included, prints the standard's text if and only if the condition holds |
| ConversionResults.NegativePrecisionConformsExactlyWhen | libc/stdio/stdio.c:647-651 | with a negative '*' precision, an integer conversion prints what the standard asks for without a precision if and only if the argument is not zero and no zeros were to fill the width |
| ConversionResults.AlternateConversionConformsExactlyWhen | libc/stdio/stdio.c:699-766 | with '#', a whole %x, %X or %o conversion prints the standard's alternative form if and only if the condition holds |
| ConversionResults.NegativeHashPrecisionConformsExactlyWhen | libc/stdio/stdio.c:647-651 | the same with a negative '*' precision, which the standard takes for none |
| ConversionResults.ZeroLost | libc/stdio/stdio.c:647-651 | an input that fails: 0 with the precision -1 |
| ConversionResults.SignedDecodesExactlyWhen | libc/stdio/stdio.c:732-748 | %d and %i are read back with their sign if and only if the number is not negative or zeros leave room for the sign |
| ConversionResults.MinusDropped | libc/stdio/stdio.c:273-276 | an input that fails: -5 with precision 32 |
| ConversionResults.UnsignedDecodes | libc/stdio/stdio.c:749-763 | %u, %x, %X, %o and %b are always read back, in base 10, 16, 16, 8 and 2 |
| ConversionResults.HashConversionDecodesExactlyWhen | libc/stdio/stdio.c:699-766 | with '#', %x, %X, %o and %b are read back in base 16, 16, 8 and 2 if and only if the argument is zero, a precision is given, or the digits are not mistaken for padding |
| ConversionResults.IntegerLength | libc/stdio/stdio.c:208-310 | the exact number of characters of any integer without '#' |
| ConversionResults.LengthExactlyWhen | libc/stdio/stdio.c:208-310 | it is max(width, sign + max(digits, precision)), with the precision ignored under '-', if and only if the condition on the buffer holds |
| ConversionResults.StringLength | libc/stdio/stdio.c:806-830 | %s takes max(width, min(strlen, precision)) characters and shows that prefix at the right side |
| ConversionResults.SpecConverted | libc/stdio/stdio.c:607-859 | a specification anywhere in a format is converted with the fields that it was written with |
| ConversionResults.IntegerSpecRendered | libc/stdio/stdio.c:596-860 | a format of one integer specification prints the conversion of its argument with the fields as written, and takes that argument; with ll or j it prints nothing and takes none |
| ConversionResults.NothingWantedExactlyWhen | libc/stdio/stdio.c:730-766 | the standard asks for the empty text of a long long if and only if it is a zero with precision 0, no width and no sign, and not %#o |
| ConversionResults.UnsignedReadBack | libc/stdio/stdio.c:197-310 | _atoi reads back what %u prints, to the last character, for every 32-bit value |
| PrintfConformance.BaseAsWritten | libc/stdio/stdio.c:701-714 | x and X in base 16, o in 8, b in 2, d, i and u in 10 |
| PrintfConformance.DigitsAreNumeral | libc/stdio/stdio.c:301-307 | in every base up to 16 the digits of a value are those of 0123456789abcdef, or 0123456789ABCDEF for X |
| PrintfConformance.CharsOfFlags | libc/stdio/stdio.c:611-621 | which of '0', '-', '+', ' ' and '#' stands for which flag |
| PrintfConformance.ArgumentAsWritten | libc/stdio/stdio.c:744-762 | h and hh cut the argument to 16 and 8 bits, read with a sign for d and i |
| PrintfConformance.WantedAsWritten | libc/stdio/stdio.c:699-766 | what the conformance conditions are about is the text that the standard asks for, written with literal characters for the specification as it is typed: flags, width, precision, length and letter |
| PrintfConformance.PrintedConformsExactlyWhen | libc/stdio/stdio.c:586-867 | for every written specification of d, i, u, x, X, o (and of b without '#'), with any flags, widths and precisions, given by '*' included, and any length, and for every argument, the whole of printf prints the text of section 7.21.6.1 of ISO C11 if and only if the condition holds |
| PrintfConformance.LongLongLost | libc/stdio/stdio.c:730-766 | an input that fails: %lld of 5 prints nothing |
| PrintfConformance.PrintedDecodesExactlyWhen | libc/stdio/stdio.c:586-867 | what the whole of printf prints for such a specification without '#', ll and j is read back, in the base of the letter, as the argument cut to its length: always if unsigned, else if and only if it is not negative or zeros leave room for the sign |
| PrintfConformance.BinarySpecRendered | libc/stdio/stdio.c:238-271 | a lone %#b without '0' and precision prints 0b and the binary digits, in blanks up to the width, for a nonzero argument with at most 30 digits that are not as many as the width |
| PrintfConformance.CharSpecRendered | libc/stdio/stdio.c:786-804 | a lone %c, with any fields, prints the character of the low byte of its argument, in blanks up to the width |
| PrintfConformance.StringSpecConformsExactlyWhen | libc/stdio/stdio.c:806-830 | a lone %s, with any fields and any string, prints the standard's text if and only if its precision is not a negative '*', or the string is blank and fits the width |
| PrintfConformance.PointerSpecRendered | libc/stdio/stdio.c:832-848 | a lone %p without '-', '+', ' ', '#' and a precision above 8 prints eight upper-case hexadecimal digits, whatever the width |
| PrintfConformance.OtherSpecRendered | libc/stdio/stdio.c:850-858 | '%', and every other character that is no conversion, prints itself behind any fields |
| PrintfConformance.PlainRendered | libc/stdio/stdio.c:596-604 | a format without '%' prints itself and takes no argument |
| FormatConcatenation.FieldsAgree | libc/stdio/stdio.c:610-689 | the fields read depend only on the characters read, not on where they stand or what follows |
| FormatConcatenation.RenderedBehind | libc/stdio/stdio.c:596-860 | a format prints the same behind another one |
| FormatConcatenation.RenderedConcat | libc/stdio/stdio.c:586-867 | for all formats and arguments, two formats one behind the other print their texts one behind the other, and the second takes the arguments that the first leaves |
| Memory.Memmove | libc/string/memmove.c:3-14 | overlapping regions are copied as if through a temporary (section 7.24.2.2 of ISO C11), and no other cell changes |
| Memory.MovedMeaning | libc/string/memmove.c:3-14 | the destination holds what the source held, and nothing else has changed |
| TerminalPaper.VgaEntryInjective | kernel/arch/i386/tty.c:21-23 | a screen cell keeps character and colour apart |
| TerminalPaper.VgaEntryBytes | kernel/arch/i386/tty.c:21-23 | the low byte of a cell is the character, the high byte the colour |
| TerminalPaper.VgaEntryColorHalves | kernel/arch/i386/tty.c:17-19 | the low half of a colour is the foreground, the high half the background; light grey on black is 0x07 |
| TerminalPaper.NewlineMoves | kernel/arch/i386/tty.c:64-95 | a newline starts the next row; on row 24 all rows move up by 80 cells and blanks come in |
| TerminalPaper.TabMoves | kernel/arch/i386/tty.c:68-70 | a tab moves 4 - row % 4 columns, and one that reaches column 80 acts as a newline |
| TerminalPaper.BackspaceMoves | kernel/arch/i386/tty.c:71-80 | a backspace moves to the cell before, which gets character 0; nothing else changes |
| TerminalPaper.CharacterMoves | kernel/arch/i386/tty.c:81-95 | any other character is put at 80 * row + column, and the cursor moves on, wrapping behind column 79 |
| TerminalPaper.CursorStaysExactlyWhen | kernel/arch/i386/tty.c:61-96 | the cursor stays on the screen if and only if the tab or backspace is one that fits |
| TerminalPaper.TabLeavesScreen | kernel/arch/i386/tty.c:69 | an input that leaves it: a tab in column 78 of the first row |
| TerminalPaper.BackspaceLeavesScreen | kernel/arch/i386/tty.c:72-76 | another one: a backspace at the origin |
| TerminalPaper.SafeStores | kernel/arch/i386/tty.c:79-83 | a safe character is stored inside the buffer |
| TerminalPaper.StoreAgrees | kernel/arch/i386/tty.c:79-83 | a character lands on the same cell of the screen and of the paper |
| TerminalPaper.WindowAfterRow | kernel/arch/i386/tty.c:48-55 | scrolling is the window moving down one row of the paper |
| TerminalPaper.PutIsPutOnPaper | kernel/arch/i386/tty.c:61-96 | a character on the screen is a character on the paper, seen through the window |
| TerminalPaper.ScreenIsWindowOnPaper | kernel/arch/i386/tty.c:39-101 | over every safe run, with any colours, tabs and backspaces, the screen is the last 25 rows of the paper and the cursor is on it |
| TerminalPaper.SafeRunStores | kernel/arch/i386/tty.c:98-101 | every character of a safe run is stored inside the buffer |
| TerminalPaper.LayoutAppend | kernel/arch/i386/tty.c:64-89 | writing one more character is what wrapping the longer text at 80 columns gives |
| TerminalPaper.PageAppend | kernel/arch/i386/tty.c:61-96 | a page of wrapped text stays a page of wrapped text |
| TerminalPaper.PlainTextIsLaidOut | kernel/arch/i386/tty.c:25-101 | any text without tabs and backspaces shows as the last 25 rows of its lines wrapped at 80 columns |
| TerminalPaper.SplitMeaning | kernel/arch/i386/tty.c:64-67 | the lines hold no newline, and joined by newlines they are the text |
| TerminalPaper.FoldMeaning | kernel/arch/i386/tty.c:81-89 | the wrapped rows of a line are the line, cut behind every 80 characters |
| TerminalPaper.ShownCell | kernel/arch/i386/tty.c:21-96 | cell k of row r of the screen that shows a text: the low byte is the character of the layout, or a blank, the high byte the colour; and where the cursor is |
| Terminals.Terminal.constructor | kernel/arch/i386/tty.c:25-37 | all cells blank in the chosen colour, or 0x07, cursor at the origin: the screen shows the empty text |
| Terminals.Terminal.SetColor | kernel/arch/i386/tty.c:39-41 | only the colour changes |
| Terminals.Terminal.PutEntryAt | kernel/arch/i386/tty.c:43-46 | exactly one cell changes, to the entry whose bytes VgaEntryBytes gives |
| Terminals.Terminal.Scroll | kernel/arch/i386/tty.c:48-55 | rows move up by one and the last one is blank |
| Terminals.Terminal.PutChar | kernel/arch/i386/tty.c:61-96 | the whole new screen, for every character; NewlineMoves, TabMoves, BackspaceMoves and CharacterMoves say cell by cell what it is |
| Terminals.Terminal.Write | kernel/arch/i386/tty.c:98-101 | the screen after the whole text, for every text whose characters are stored inside the buffer; after a safe one the cursor is on the screen |
| ConsoleOutput.ShowsMore | kernel/arch/i386/tty.c:98-101 | where the screen shows the last 25 wrapped rows of one plain text, writing another one shows those of both, one behind the other |
| ConsoleOutput.ByteOfMeaning | libc/stdio/stdio.c:152-164 | a character below 256 is given to the terminal as the byte of the same value |
| ConsoleOutput.Print | libc/stdio/stdio.c:872-880 | printf leaves the screen that writing the format's text leaves; plain text is shown behind the plain text printed before it |
| TagList.HeaderAt | kernel/kernel/tags.c:23-26 | at the offset of tag i stands its header, and behind the last tag the END tag |
| TagList.NextSkipsPadding | kernel/kernel/tags.c:25-26 | rounding the size up to 8 leads behind the padding |
| TagList.PaddedMeaning | kernel/kernel/tags.c:25-26 | the rounded size is the next multiple of 8 |
| TagList.WalkSteps | kernel/kernel/tags.c:25-26 | the step leads from one tag to the next |
| TagList.AddressesMeaning | kernel/kernel/tags.c:23-26 | the i-th address visited is that of tag i |
| TagList.LastOfMeaning | kernel/kernel/tags.c:28-48 | a field is NULL if and only if the list has no tag of its type |
| TagList.LastOfIsLast | kernel/kernel/tags.c:28-48 | otherwise it points to the last tag of its type |
| TagList.TagsInfo.Record | kernel/kernel/tags.c:28-48 | the chain of tests assigns the one field of the tag's type |
| TagList.TagsInfo.LoadTags | kernel/kernel/tags.c:16-50 | terminates on every well-formed list, visits exactly the tags in order, and leaves each field as above |

## Left out

- Device code (AHCI, PCI, ACPI, keyboard, timer, port I/O), GDT and IDT encoding: registers and fixed layouts.
- Loading CR3 and CR0 (`ptm_load`), inline assembly and `.S` files: the hardware walk takes the value of CR3 as a
  parameter, and is the one for 4-KByte pages; page-size extensions are not modelled.
- Floating point conversions (`_ftoa`, `_etoa`): formats that use them have no rendered text. `fctprintf`: an output
  function chosen by the caller.
- `PANIC` and `abort` are results of the call, not the display they print.
- The contents of boot tags other than the memory map; the map's entries are values with a length and a type, and the
  tag's own address and entry size.
- The heap and the frame allocator share no object: the heap's writes are the `Elsewhere` events of
  FrameAllocation.ConservationSinceBoot, and the reverse holds by the byte frames of the allocator's methods.
- PageTableManagement.PageTableManager.Initialize: asks that the bitmap lies below KERNEL_END, which is where
  FrameAllocation.FrameAllocator.ReadMemoryMap leaves it.
- `KernelHeap.Heap`: the header fields live in the object, not in the 28 bytes that the layout keeps free for them.
- KernelHeap.Heap.Malloc: where no full run exists, memory must reach as far as a truncated tail would mark, since the
  code checks no bound.
- KernelHeap.HeapIsSound: asks for sizes that do not wrap around, and for a full run at each allocation; a wrapped size
  and a truncated run are what KernelHeap.HugeSizeGetsNoBlock and KernelHeap.ChunkKeptExactlyWhen are about.
- PrintfConformance.PrintedConformsExactlyWhen: `%#b` is left out, since ISO C11 has no `b` conversion; '#' on d, i
  and u, which it leaves undefined, is taken as no flag at all.
- PrintfConformance.BinarySpecRendered: leaves out what the trimming of '#' and the 32 characters of the buffer do to
  `%#b`; ConversionResults.HashConversionDecodesExactlyWhen says when its value survives.
- PrintfConformance.PointerSpecRendered: leaves out '-', '+', ' ', '#' and a precision above 8, of which the standard
  says nothing for `%p`; Printf.Printer.Convert covers them.
- MappedFrames.HeldFramesMapped: is about requests that map what they hand out, `pfa_request_mpage` and
  `pfa_request_mpages`, and about runs in which nothing but `ptm_map_addr` writes to the page tables.
- KernelHeap.UsedIsExact: asks that no size plus granularity wraps around; without it the sum holds modulo 2^32.
- Printf.Snprintf: the closed form of the buffer is for texts below 2^32 characters; Printf.Printer.Vsnprintf covers
  longer ones with the index wrapping.
- Terminals.Terminal.PutChar: asks that the cell it stores lies in the buffer, since the code checks no bound; it
  covers unsafe tabs and backspaces as long as it does.
- Terminals.Terminal.Write: asks the same of every character of the text.
- ConsoleOutput.Print: the engine collects the characters and the terminal is then given them in order, where the code
  hands over each one as it comes.
- A C `char` is a Dafny `char` in the printf model and a byte in the terminal model (`ConsoleOutput.ByteOf`); strings
  and formats hold no '\0'.
- `terminal_delete_line`, `terminal_writestring` and the other string functions of the C library: easy members only.
