# Address translation of memory_manager.c, modelled in Dafny

`memory_manager.c` simulates virtual-to-physical address translation. For
each 32-bit logical address of its input it does the following:

- splits off the logical page (bits 8..15) and the offset (bits 0..7);
- probes a 16-entry TLB that is filled in FIFO order;
- falls back to a 256-slot page table;
- on a page fault, copies the page's 256 bytes from the memory-mapped
  backing store into the next free frame of a 65,536-byte `memory` and
  installs the mapping;
- refreshes the TLB on every TLB miss;
- builds the physical address, reads the byte there, and counts
  translations, TLB hits and page faults.

The model keeps the program's own form. The globals are objects with array
fields, updated in place:

- `Tlb.Tlb` is the `TLB` array with `TLB_index`.
- `Translator.Frames` holds `page_table`, `memory`, the mapped backing
  store, `unallocated_page` and the fault count.
- `Translator.MemoryManager` holds both, with the counters `total` and
  `hits`.

The operations are methods with loop invariants: `TLB_lookup`, the
`memcpy`, and the main loop. The C bit operators `&`, `|`, `>>` and `<<`
are written over unbounded integers in module `Bits`, with lemmas giving
their arithmetic meaning.

The modules follow the program's structure:

- `Bits`: the fixed-width C types (`int`, `uint8_t`, `int8_t`) and the bit
  operators.
- `Addressing`: page/offset decomposition and physical-address
  composition (lines 133, 137, 175).
- `Tlb`: the FIFO TLB, `TLB_lookup` and `TLB_addition` (lines 38-41,
  215-234). Its ghost `history` of every insertion defines the live
  window the lookup scans.
- `Translator`: physical memory, the page table and the per-address
  pipeline (lines 44-46, 124, 129-176).
- `Trace`: the main loop as values. A trace is the sequence of states the
  loop goes through, each a page table and a TLB insertion history. A step
  relation, `Resolves`, connects consecutive states. An induction lemma
  turns the trace into properties of the whole output.
- `Iteration`: one pass of the loop body over the globals, which extends
  the trace by one state (lines 127-185).
- `Program`: the main loop over the whole input and the statistics it
  prints (lines 78-80, 127-199).

Two properties of the code are proved rather than assumed:

- **No duplicate TLB entries.** The code inserts into the TLB only after a
  TLB miss, so the live window never holds a page twice: `Tlb.InsertMissed`,
  and `DistinctPages` in `MemoryManager.TlbValid`. Each lookup therefore
  returns the page's only live entry.
- **No frame reuse.** The code faults each logical page at most once, and
  there are exactly as many frames as pages. So there are at most 256
  faults, and the `uint8_t` cursor `unallocated_page` wraps to 0 only after
  the last possible fault: `Frames.Valid`, and `faults <= PAGES` in
  `Program.Run`.

## Model

| member | source | states |
|---|---|---|
| Bits.And | memory_manager.c:133 | `x & y` over the low `w` bits of a C `int` is a `w`-bit value, in [0, 2^w), and never exceeds a non-negative mask `y` |
| Bits.Or | memory_manager.c:175 | the bitwise or of two C `int` values over their low `w` bits is a `w`-bit value, in [0, 2^w), and never exceeds the sum of non-negative operands |
| Bits.ShiftRight | memory_manager.c:137 | the arithmetic `x >> n` keeps the sign of `x` and never exceeds a non-negative `x` |
| Bits.ShiftLeft | memory_manager.c:175 | `x << n`, for a value whose shifted bits stay inside the word, is undone by an arithmetic right shift by `n` |
| Bits.AndLowMask | memory_manager.c:133 | `x & (2^k - 1)` on a two's-complement `int` is `x mod 2^k`, also for negative `x` |
| Bits.ShiftRightIsDiv | memory_manager.c:137 | the arithmetic right shift `x >> n` is floor division by `2^n` |
| Bits.OrDisjoint | memory_manager.c:175 | or-ing a value below `2^k` into one shifted left by `k` is addition |
| Addressing.Offset | memory_manager.c:133 | `logical_address & OFFSET_MASK` is the address modulo 256, in [0, 256) |
| Addressing.Page | memory_manager.c:137 | `(logical_address >> OFFSET_BITS) & PAGE_MASK` is bits 8..15 of the address, `(a / 256) mod 256`, in [0, 256) |
| Addressing.PageBits | memory_manager.c:137 | the shift-then-mask expression equals `(a / 256) mod 256` for every `int` |
| Addressing.HighBitsIgnored | memory_manager.c:133-137 | adding any multiple of 65,536 to an address changes neither its page nor its offset |
| Addressing.Decompose | memory_manager.c:133-137 | for an address in [0, 65536), `page * 256 + offset` is the address itself |
| Addressing.PhysicalAddress | memory_manager.c:175 | shifting the frame left by `OFFSET_BITS` and or-ing in the offset gives `frame * 256 + offset` and lies in [0, 65536) |
| Addressing.PhysicalSplits | memory_manager.c:175 | the physical address splits back into its frame (as page) and its offset |
| Tlb.WindowStart | memory_manager.c:217 | `MAX(TLB_index - TLB_SIZE, 0)` is at most the index and leaves `min(index, 16)` live slots |
| Tlb.Live | memory_manager.c:217-218 | the live window is the last `min(n, 16)` insertions, all of them while fewer than 16 |
| Tlb.Find | memory_manager.c:215-225 | the scan returns -1 exactly when no live entry has the page; otherwise the frame of the oldest live entry that has it |
| Tlb.FindUnique | memory_manager.c:215-225 | in a window that holds each page once, the lookup returns that page's own frame |
| Tlb.LiveAppend | memory_manager.c:228-234 | an insertion appends to the window and, once 16 are live, drops the oldest |
| Tlb.InsertMissed | memory_manager.c:141-173 | inserting a page that missed keeps every page at most once in the window, and the page is then found with its frame |
| Tlb.FifoEviction | memory_manager.c:215-234 | after 17 insertions of distinct pages, the first one misses and each of the other 16 finds its frame |
| Tlb.Tlb.constructor | memory_manager.c:38-41 | the zeroed global array with `TLB_index == 0`: nothing live |
| Tlb.Tlb.Lookup | memory_manager.c:215-225 | the loop over `i % TLB_SIZE` from the window start returns exactly `Find` over the live window |
| Tlb.Tlb.Add | memory_manager.c:228-234 | writes exactly slot `TLB_index % 16` with the entry, leaves the other 15 slots, and increments the index by one |
| Translator.ByteIndex | memory_manager.c:164-165 | byte `offset` of page or frame `n` sits at `n * 256 + offset`, inside the 65,536 bytes |
| Translator.AgreesAfterInsert | memory_manager.c:172 | inserting an entry that matches the page table keeps every live TLB entry matching the page table |
| Translator.FewerThanAll | memory_manager.c:152-158 | while some page is unmapped, fewer than 256 pages are resident, so a fault always has a free frame |
| Translator.Frames.constructor | memory_manager.c:44-46 | every page-table slot starts at -1, with no faults and the cursor at 0 |
| Translator.Frames.CopyPage | memory_manager.c:162-167 | the `memcpy`: frame `frame` becomes the backing store's page `page`, and every byte outside the frame is unchanged |
| Translator.Frames.PageIn | memory_manager.c:152-169 | the fault path counts one fault, takes frame `unallocated_page` (which equals the old fault count), increments the cursor as a `uint8_t`, copies the page, and maps only that slot |
| Translator.Frames.Installed | memory_manager.c:152-169 | after the fault path, mapped pages still hold distinct frames below the fault count and each frame still holds its page's bytes |
| Translator.MemoryManager.constructor | memory_manager.c:38-46 | the globals at program start: empty TLB, all pages unmapped, cursor and counters at zero |
| Translator.MemoryManager.RefreshTlb | memory_manager.c:172 | `TLB_addition` on a miss: the page is then found with its frame, and every live entry still agrees with the page table |
| Translator.MemoryManager.Fetch | memory_manager.c:150-170 | the page-table read: a fault exactly when the slot is -1; the frame is the mapped one, or else the old cursor; the TLB is untouched and still agrees |
| Translator.MemoryManager.Refill | memory_manager.c:148-173 | the TLB-miss path: as `Fetch`, then one insertion of `(page, frame)` into the TLB |
| Translator.MemoryManager.Translate | memory_manager.c:127-176 | a TLB hit exactly when the live window holds the page; a fault exactly when the slot was -1; a mapped slot never changes; the physical address is `frame * 256 + offset`; the value is the backing store's byte; `total` rises by one, `hits` and `faults` by one on their outcome; the TLB history is unchanged on a hit and gains exactly `(page, frame)` on a miss, so afterwards the TLB holds the page |
| Trace.Count | memory_manager.c:129-154 | a counter of records of one outcome never exceeds the number of records |
| Trace.ResidentStep | memory_manager.c:150-169 | after an address resolves, the mapped pages are exactly the pages touched so far |
| Trace.LocatedStep | memory_manager.c:164-176 | every record so far holds its address, the frame the page table gives its page with the offset, and the backing-store byte |
| Trace.FaultsFirstStep | memory_manager.c:150-154 | a record is a fault exactly at the first occurrence of its page |
| Trace.FramesInOrderStep | memory_manager.c:154-158 | the n-th page to fault holds frame n |
| Trace.CountsDisjoint | memory_manager.c:144-154 | `hits + faults` never exceeds the number of records |
| Trace.Recent | memory_manager.c:215-218 | the pages of the live window: at most 16, the latest insertion last |
| Trace.Inserted | memory_manager.c:141-172 | the pages the loop inserts into the TLB, at most one per address |
| Trace.InsertedAppend | memory_manager.c:141-172 | one more address inserts its page exactly when the page is not among the last 16 inserted |
| Trace.FindRecent | memory_manager.c:215-225 | `TLB_lookup` finds a page exactly when it is among the pages of the last 16 insertions |
| Trace.LastRecent | memory_manager.c:141-172 | after an address is translated, its page is among the last 16 inserted |
| Trace.InsertedStep | memory_manager.c:141-172 | hitting exactly when the window holds the page, and inserting it otherwise, makes the insertions `Inserted` describes; the hit happens exactly when the page is recent |
| Trace.HitsRecentStep | memory_manager.c:141-146 | each record so far is a TLB hit exactly when its page was among the last 16 inserted before it |
| Trace.RepeatsHitFromRecent | memory_manager.c:141-146 | so an address on the same page as the one before it is a TLB hit |
| Trace.ExplainsStep | memory_manager.c:127-185 | one more address resolved as the loop body resolves it keeps all the whole-output properties above |
| Trace.TracedStep | memory_manager.c:127-185 | extending the trace of the main loop by one resolved address |
| Trace.TracedExplainsUpTo | memory_manager.c:127-185 | by induction, the first `k` steps of a trace explain the first `k` records |
| Trace.TracedExplains | memory_manager.c:127-185 | every trace of the main loop has all the whole-output properties |
| Trace.SharedFrames | memory_manager.c:169-175 | since mapped pages have distinct frames, two records share a frame exactly when their addresses share a page; the same address gives the same physical address and value |
| Trace.TraceMeans | memory_manager.c:127-185 | what the whole output says: addresses, offsets and bytes; faults at first occurrences with frames in order; shared frames exactly for shared pages; same address, same physical address and value |
| Trace.TraceHits | memory_manager.c:127-185 | which records are TLB hits: exactly those whose page is among the last 16 inserted before them; in particular repeats of the previous page |
| Iteration.MirrorInjective | memory_manager.c:150-169 | the page table as a sequence keeps distinct frames for distinct mapped pages |
| Iteration.Step | memory_manager.c:127-176 | one iteration resolves its address as `Resolves` states, for the page table and TLB insertion history before and after as values, including whether it hits the TLB and what it inserts |
| Iteration.Started | memory_manager.c:38-46 | the globals at program start satisfy the loop invariant with nothing translated |
| Iteration.Advance | memory_manager.c:127-185 | one iteration keeps the loop invariant `Progress`: consistent globals, counters equal to counts of records, an extended trace |
| Program.TranslateAll | memory_manager.c:127-185 | the main loop over all addresses, from the initial globals, ends with the invariant over the whole input |
| Program.Run | memory_manager.c:78-199 | the whole run: one record per address, `total`, `hits`, `faults` counting them, `hits + faults <= total`, `faults` equal to the number of distinct pages (at most 256), a TLB hit exactly when the page is among the last 16 inserted, and every property of `TraceMeans` |

## Left out

- Argument checking, `open`, `fopen`, `mmap`, `munmap`, `close`, `fclose` and the exit paths (lines 72-119, 204-211) are I/O. The backing store is a parameter of `Run` (65,536 bytes).
- `fscanf` parsing (line 127): the addresses are a parameter of `Run` as a sequence of `int` values. A non-numeric token makes `fscanf` return 0 rather than `EOF`, so the loop repeats the previous address forever; this is not modelled.
- The `fprintf` output lines and the floating-point fault and hit rates (lines 177-200): `Run` returns the records and the integer counters instead.
- The GNU statement-expression `MAX` macro (lines 16-19) is modelled by `Tlb.WindowStart` over natural numbers.
- `TLB_index` is a C `int` that would overflow after 2^31 insertions; it is modelled as a `nat`. The same holds for `total`, `hits` and `faults`.
- A right shift of a negative `int` is implementation-defined in C. It is modelled as the arithmetic (floor) shift that common compilers perform.
- Translator.MemoryManager.Translate: its ensures do not list which bytes of `memory` change. That is stated by `Frames.PageIn` and `Frames.CopyPage`, and Translate keeps the memory consistency in `Valid`.
