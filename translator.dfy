/**
  * The translation pipeline of memory_manager.c: per logical address, probe
  * the TLB, fall back to the page table, on a fault copy the page from the
  * backing store into the next free frame, refresh the TLB, then read the
  * byte at the physical address and update the statistics.
  */
module Translator {
  import opened Bits
  import opened Addressing
  import opened Tlb

  /** `page_table` marks a page that is not resident with -1. */
  const UNMAPPED: int := -1

  /** How one address was resolved. */
  datatype Outcome = TlbHit | PageTableHit | PageFault

  /**
    * One output line `Virtual address: … Physical address: … Value: …`,
    * with the way the address was resolved.
    */
  datatype Record = Record(logical: int32, physical: nat, value: int8, outcome: Outcome)

  /** Position of byte `offset` of page (or frame) `n` in the backing store (or in `memory`). */
  function ByteIndex(n: u8, offset: u8): (i: nat)
    ensures i < MEMORY_SIZE
  {
    n * PAGE_SIZE + offset
  }

  /** Every entry of a TLB window names the frame the page table holds for its page. */
  ghost predicate Agrees(window: seq<Entry>, table: array<int>)
    reads table
  {
    forall k :: 0 <= k < |window| ==> window[k].page < table.Length && table[window[k].page] == window[k].frame
  }

  /** Inserting an entry that agrees with the page table keeps the window in agreement. */
  lemma AgreesAfterInsert(before: seq<Entry>, e: Entry, after: seq<Entry>, table: array<int>)
    requires after == before + [e]
    requires Agrees(Live(before), table)
    requires e.page < table.Length && table[e.page] == e.frame
    ensures Agrees(Live(after), table)
  {
    LiveAppend(before, e, after);
    var d := if |before| >= TLB_SIZE then 1 else 0;
    var w := Live(after);
    forall k | 0 <= k < |w|
      ensures w[k].page < table.Length && table[w[k].page] == w[k].frame
    {
      if k < |w| - 1 {
        assert w[k] == Live(before)[k + d];
      }
    }
  }

  /** The integers `0 .. n - 1` as a set. */
  function Below(n: nat): (r: set<int>)
    ensures |r| == n
    ensures forall p :: p in r <==> 0 <= p < n
  {
    if n == 0 then {} else Below(n - 1) + {n - 1}
  }

  /** While some value below `n` is missing from a set of values below `n`, the set has fewer than `n` members. */
  lemma FewerThanAll(present: set<int>, absent: int, n: nat)
    requires forall p :: p in present ==> 0 <= p < n
    requires 0 <= absent < n && absent !in present
    ensures |present| < n
  {
    var all := Below(n);
    var used := present + {absent};
    assert |used| == |present| + 1;
    assert all * used == used;
    assert |all - used| == |all| - |used|;
  }

  /**
    * Physical memory and its bookkeeping: `page_table`, `memory`, the mapped
    * backing store, the next free frame `unallocated_page` and the fault count.
    */
  class Frames {
    const backing: seq<int8>
    const pageTable: array<int>
    const memory: array<int8>
    var unallocated: u8
    var faults: nat

    /** The logical pages that have a frame. */
    ghost function Resident(): (resident: set<int>)
      reads pageTable
    {
      set p | 0 <= p < PAGES && p < pageTable.Length && pageTable[p] != UNMAPPED
    }

    /** Page table, frame cursor and physical memory are consistent with the backing store. */
    ghost predicate Valid()
      reads this, pageTable, memory
    {
      |backing| == MEMORY_SIZE &&
      pageTable.Length == PAGES &&
      memory.Length == MEMORY_SIZE &&
      // frames are handed out in order, one per fault, never twice
      faults <= PAGES &&
      |Resident()| == faults &&
      unallocated == faults % PAGES &&
      (forall p :: 0 <= p < PAGES ==> pageTable[p] == UNMAPPED || 0 <= pageTable[p] < faults) &&
      (forall p, q :: 0 <= p < q < PAGES && pageTable[p] != UNMAPPED ==> pageTable[p] != pageTable[q]) &&
      // a resident page's frame holds that page's bytes
      (forall p, offset {:trigger memory[ByteIndex(pageTable[p], offset)]} ::
         0 <= p < PAGES && pageTable[p] != UNMAPPED && 0 <= offset < PAGE_SIZE ==>
         memory[ByteIndex(pageTable[p], offset)] == backing[ByteIndex(p, offset)])
    }

    /** Program start: every page unmapped, frame cursor and fault count at zero. */
    constructor (backing: seq<int8>)
      requires |backing| == MEMORY_SIZE
      ensures Valid() && this.backing == backing
      ensures fresh(pageTable) && fresh(memory)
      ensures forall p :: 0 <= p < PAGES ==> pageTable[p] == UNMAPPED
      ensures unallocated == 0 && faults == 0
    {
      this.backing := backing;
      pageTable := new int[PAGES](_ => UNMAPPED);
      memory := new int8[MEMORY_SIZE](_ => 0);
      unallocated, faults := 0, 0;
      new;
      assert Resident() == {};
    }

    /** The `memcpy` of the fault path: copy page `page` of the backing store into frame `frame`. */
    method CopyPage(frame: u8, page: u8)
      requires |backing| == MEMORY_SIZE && memory.Length == MEMORY_SIZE
      modifies memory
      ensures forall offset :: 0 <= offset < PAGE_SIZE ==> memory[ByteIndex(frame, offset)] == backing[ByteIndex(page, offset)]
      ensures forall i :: 0 <= i < MEMORY_SIZE && !(frame * PAGE_SIZE <= i < frame * PAGE_SIZE + PAGE_SIZE) ==>
        memory[i] == old(memory[i])
    {
      var dst, src := frame * PAGE_SIZE, page * PAGE_SIZE;
      var n := 0;
      while n < PAGE_SIZE
        invariant 0 <= n <= PAGE_SIZE
        invariant forall i :: dst <= i < dst + n ==> memory[i] == backing[i - dst + src]
        invariant forall i :: 0 <= i < MEMORY_SIZE && !(dst <= i < dst + n) ==> memory[i] == old(memory[i])
      {
        memory[dst + n] := backing[src + n];
        n := n + 1;
      }
      assert forall offset :: 0 <= offset < PAGE_SIZE ==> ByteIndex(frame, offset) == dst + offset;
    }

    /**
      * The fault path: count the fault, take the next free frame, advance the
      * byte-wide cursor, copy the page in and install the mapping.
      */
    method PageIn(page: u8) returns (frame: u8)
      requires Valid() && pageTable[page] == UNMAPPED
      modifies this, pageTable, memory
      ensures frame == old(unallocated) && frame == old(faults)
      ensures faults == old(faults) + 1 && unallocated == (old(unallocated) + 1) % 0x100
      ensures pageTable[page] == frame
      ensures forall p :: 0 <= p < PAGES && p != page ==> pageTable[p] == old(pageTable[p])
      ensures forall offset :: 0 <= offset < PAGE_SIZE ==> memory[ByteIndex(frame, offset)] == backing[ByteIndex(page, offset)]
      ensures forall i :: 0 <= i < MEMORY_SIZE && !(frame * PAGE_SIZE <= i < frame * PAGE_SIZE + PAGE_SIZE) ==>
        memory[i] == old(memory[i])
      ensures Valid()
    {
      FewerThanAll(Resident(), page, PAGES);
      faults := faults + 1;
      frame := unallocated;
      unallocated := (unallocated + 1) % 0x100;
      CopyPage(frame, page);
      pageTable[page] := frame;
      Installed(page);
    }

    /** The state the fault path leaves behind is consistent again: `page` now owns the frame the cursor pointed at. */
    twostate lemma Installed(page: u8)
      requires old(Valid()) && old(pageTable[page]) == UNMAPPED && old(|Resident()|) < PAGES
      requires old(unallocated) == old(faults)
      requires faults == old(faults) + 1 && unallocated == (old(unallocated) + 1) % 0x100
      requires pageTable[page] == old(unallocated)
      requires forall p :: 0 <= p < PAGES && p != page ==> pageTable[p] == old(pageTable[p])
      requires forall offset :: 0 <= offset < PAGE_SIZE ==>
        memory[ByteIndex(old(unallocated), offset)] == backing[ByteIndex(page, offset)]
      requires forall i :: 0 <= i < MEMORY_SIZE && !(old(unallocated) * PAGE_SIZE <= i < old(unallocated) * PAGE_SIZE + PAGE_SIZE) ==>
        memory[i] == old(memory[i])
      ensures Valid()
    {
      var frame := old(unallocated);
      assert Resident() == old(Resident()) + {page};
      forall p, offset | 0 <= p < PAGES && pageTable[p] != UNMAPPED && 0 <= offset < PAGE_SIZE
        ensures memory[ByteIndex(pageTable[p], offset)] == backing[ByteIndex(p, offset)]
      {
        if p != page {
          assert pageTable[p] < frame;
        }
      }
    }
  }

  /**
    * The global state of the program: the TLB, the physical memory with its
    * page table, and the counters `total` and `hits`.
    */
  class MemoryManager {
    const tlb: Tlb
    const frames: Frames
    var total: nat
    var hits: nat

    /** The live TLB window agrees with the page table and holds each page once. */
    ghost predicate TlbValid()
      reads tlb, tlb.entries, frames.pageTable
    {
      tlb.Valid() &&
      frames.pageTable.Length == PAGES &&
      DistinctPages(Live(tlb.history)) &&
      Agrees(Live(tlb.history), frames.pageTable)
    }

    /** Frames and TLB are consistent, and the TLB has been refreshed at least once per fault. */
    ghost predicate Ready()
      reads tlb, tlb.entries, frames, frames.pageTable, frames.memory
    {
      frames.Valid() &&
      TlbValid() &&
      frames.faults <= tlb.index
    }

    ghost predicate Valid()
      reads this, tlb, tlb.entries, frames, frames.pageTable, frames.memory
    {
      Ready() &&
      // the TLB is refreshed on every TLB miss and only then
      tlb.index + hits == total
    }

    /** Program start: empty TLB, every page unmapped, frame cursor and counters at zero. */
    constructor (backing: seq<int8>)
      requires |backing| == MEMORY_SIZE
      ensures Valid() && frames.backing == backing
      ensures fresh(tlb) && fresh(tlb.entries) && fresh(frames) && fresh(frames.pageTable) && fresh(frames.memory)
      ensures tlb.history == []
      ensures forall p :: 0 <= p < PAGES ==> frames.pageTable[p] == UNMAPPED
      ensures frames.unallocated == 0 && frames.faults == 0 && total == 0 && hits == 0
    {
      tlb := new Tlb();
      frames := new Frames(backing);
      total, hits := 0, 0;
    }

    /** `TLB_addition` on the miss path: the page's entry joins the TLB, which keeps agreeing with the page table. */
    method RefreshTlb(page: u8, frame: u8)
      requires TlbValid() && frames.pageTable[page] == frame
      requires Find(Live(tlb.history), page) == -1
      modifies tlb, tlb.entries
      ensures tlb.index == old(tlb.index) + 1
      ensures tlb.history == old(tlb.history) + [Entry(page, frame)]
      ensures Find(Live(tlb.history), page) == frame
      ensures TlbValid()
    {
      ghost var before := tlb.history;
      tlb.Add(page, frame);
      InsertMissed(before, Entry(page, frame), tlb.history);
      AgreesAfterInsert(before, Entry(page, frame), tlb.history, frames.pageTable);
    }

    /**
      * The page-table read of the TLB-miss path: the page's frame, after
      * running the fault path when the page is not resident.  The TLB is not
      * touched, and still agrees with the page table because it misses the page.
      */
    method Fetch(page: u8) returns (frame: u8, faulted: bool)
      requires Ready()
      requires Find(Live(tlb.history), page) == -1
      modifies frames, frames.pageTable, frames.memory
      ensures faulted <==> old(frames.pageTable[page]) == UNMAPPED
      ensures !faulted ==> frame == old(frames.pageTable[page])
      ensures faulted ==> frame == old(frames.unallocated)
      ensures frames.pageTable[page] == frame
      ensures forall p :: 0 <= p < PAGES && p != page ==> frames.pageTable[p] == old(frames.pageTable[p])
      ensures frames.faults == old(frames.faults) + (if faulted then 1 else 0)
      ensures frames.Valid() && TlbValid() && frames.faults <= tlb.index + 1
    {
      var entry := frames.pageTable[page];
      faulted := entry == UNMAPPED;
      if faulted {
        frame := frames.PageIn(page);
        assert Agrees(Live(tlb.history), frames.pageTable);
      } else {
        frame := entry;
      }
    }

    /**
      * The TLB-miss path: read the page table, run the fault path when the
      * page is not resident, and insert the page's entry into the TLB.
      */
    method Refill(page: u8) returns (frame: u8, faulted: bool)
      requires Ready()
      requires Find(Live(tlb.history), page) == -1
      modifies frames, frames.pageTable, frames.memory, tlb, tlb.entries
      ensures faulted <==> old(frames.pageTable[page]) == UNMAPPED
      ensures !faulted ==> frame == old(frames.pageTable[page])
      ensures faulted ==> frame == old(frames.unallocated)
      ensures frames.pageTable[page] == frame
      ensures forall p :: 0 <= p < PAGES && p != page ==> frames.pageTable[p] == old(frames.pageTable[p])
      ensures tlb.index == old(tlb.index) + 1
      ensures tlb.history == old(tlb.history) + [Entry(page, frame)]
      ensures Find(Live(tlb.history), page) == frame
      ensures frames.faults == old(frames.faults) + (if faulted then 1 else 0)
      ensures Ready()
    {
      frame, faulted := Fetch(page);
      RefreshTlb(page, frame);
    }

    /** The body of the main loop for one logical address, without the output line. */
    method Translate(address: int32) returns (physical: nat, value: int8, outcome: Outcome)
      requires Valid()
      modifies this, tlb, tlb.entries, frames, frames.pageTable, frames.memory
      ensures total == old(total) + 1
      // a TLB hit exactly when the live window holds the page; a fault exactly when the page was not resident
      ensures outcome == TlbHit <==> old(Find(Live(tlb.history), Page(address))) != -1
      ensures outcome == PageFault <==> old(frames.pageTable[Page(address)]) == UNMAPPED
      ensures hits == old(hits) + (if outcome == TlbHit then 1 else 0)
      ensures frames.faults == old(frames.faults) + (if outcome == PageFault then 1 else 0)
      // the result: the page's frame, the offset, and the backing-store byte
      ensures 0 <= frames.pageTable[Page(address)] < PAGES
      ensures physical == PhysicalAddress(frames.pageTable[Page(address)], Offset(address))
      ensures value == frames.backing[ByteIndex(Page(address), Offset(address))]
      // the page table: only a faulting page's slot is written, with the next free frame
      ensures forall p :: 0 <= p < PAGES && p != Page(address) ==> frames.pageTable[p] == old(frames.pageTable[p])
      ensures old(frames.pageTable[Page(address)]) != UNMAPPED ==>
        frames.pageTable[Page(address)] == old(frames.pageTable[Page(address)])
      ensures outcome == PageFault ==> frames.pageTable[Page(address)] == old(frames.unallocated)
      // the TLB: untouched on a hit, one insertion of the page and its frame on a miss
      ensures outcome == TlbHit ==> tlb.history == old(tlb.history)
      ensures outcome != TlbHit ==>
        tlb.history == old(tlb.history) + [Entry(Page(address), frames.pageTable[Page(address)])]
      // afterwards the TLB holds the page, so an immediate repeat is a TLB hit
      ensures Find(Live(tlb.history), Page(address)) == frames.pageTable[Page(address)]
      ensures Valid()
    {
      total := total + 1;
      var offset := Offset(address);
      var page := Page(address);
      var frame := tlb.Lookup(page);
      if frame != -1 {
        hits := hits + 1;
        outcome := TlbHit;
      } else {
        var faulted;
        frame, faulted := Refill(page);
        outcome := if faulted then PageFault else PageTableHit;
      }
      physical := PhysicalAddress(frame, offset);
      value := frames.memory[ByteIndex(frame, offset)];
    }
  }
}
