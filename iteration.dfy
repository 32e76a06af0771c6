/**
  * One pass of the body of the main loop of memory_manager.c over the
  * globals: translate an address, append its record, and extend the trace.
  */
module Iteration {
  import opened Bits
  import opened Addressing
  import opened Tlb
  import opened Translator
  import opened Trace

  /** A mirror of a page table whose resident pages have distinct frames has the same property. */
  lemma MirrorInjective(table: array<int>, mirror: seq<int>)
    requires Mirrors(table, mirror)
    requires forall p, q :: 0 <= p < q < PAGES && table[p] != UNMAPPED ==> table[p] != table[q]
    ensures forall p, q :: 0 <= p < q < PAGES && mirror[p] != UNMAPPED ==> mirror[p] != mirror[q]
  {
    forall p, q | 0 <= p < q < PAGES && mirror[p] != UNMAPPED
      ensures mirror[p] != mirror[q]
    {
      assert table[p] == mirror[p] && table[q] == mirror[q];
    }
  }

  /** The page table `table` holds, as a sequence. */
  ghost predicate Mirrors(table: array<int>, mirror: seq<int>)
    reads table
  {
    table.Length == PAGES && |mirror| == PAGES &&
    forall p {:trigger mirror[p]} :: 0 <= p < PAGES ==> table[p] == mirror[p]
  }

  /**
    * One iteration of the main loop: translate `a` after `records`, and build
    * its output record; `s` and `s'` are the page table and the TLB
    * insertions before and after, as values.
    */
  method Step(m: MemoryManager, a: int32, ghost records: seq<Record>, ghost s: Snapshot)
    returns (r: Record, ghost s': Snapshot)
    requires m.Valid() && Mirrors(m.frames.pageTable, s.table) && m.tlb.history == s.tlb
    requires m.frames.faults == Count(records, PageFault)
    modifies m, m.tlb, m.tlb.entries, m.frames, m.frames.pageTable, m.frames.memory
    ensures m.total == old(m.total) + 1
    ensures m.hits == old(m.hits) + (if r.outcome == TlbHit then 1 else 0)
    ensures m.frames.faults == old(m.frames.faults) + (if r.outcome == PageFault then 1 else 0)
    ensures Resolves(records, s, m.frames.backing, a, r, s')
    ensures m.Valid() && Mirrors(m.frames.pageTable, s'.table) && m.tlb.history == s'.tlb
  {
    ghost var faults, cursor := m.frames.faults, m.frames.unallocated;
    ghost var cached := Find(Live(s.tlb), Page(a)) != -1;
    assert cursor == faults % PAGES;
    var physical, value, outcome := m.Translate(a);
    assert outcome == TlbHit <==> cached;
    r := Record(a, physical, value, outcome);
    s' := Snapshot(s.table[Page(a) := m.frames.pageTable[Page(a)]], m.tlb.history);
    forall p | 0 <= p < PAGES
      ensures m.frames.pageTable[p] == s'.table[p]
    {
      if p != Page(a) {
        assert m.frames.pageTable[p] == old(m.frames.pageTable[p]);
      }
    }
    if outcome == PageFault {
      assert faults < m.frames.faults <= PAGES;
      DivModUnique(faults, PAGES, 0, faults);
    }
  }

  /**
    * What holds after the main loop has translated the addresses `prefix`:
    * the globals are consistent, the counters count the records, the page
    * table and the TLB insertions are those of the last of `states`, and the
    * trace explains the records.
    */
  ghost predicate Progress(m: MemoryManager, prefix: seq<int32>, records: seq<Record>, states: seq<Snapshot>)
    reads m, m.tlb, m.tlb.entries, m.frames, m.frames.pageTable, m.frames.memory
  {
    m.Valid() && m.total == |prefix| && |states| == |prefix| + 1 &&
    Mirrors(m.frames.pageTable, states[|prefix|].table) && m.tlb.history == states[|prefix|].tlb &&
    Traced(prefix, records, states, m.frames.backing) &&
    m.hits == Count(records, TlbHit) && m.frames.faults == Count(records, PageFault)
  }

  /** The globals at program start satisfy the loop's invariant, with nothing translated yet. */
  lemma Started(m: MemoryManager)
    requires m.Valid() && m.total == 0 && m.hits == 0 && m.frames.faults == 0 && m.tlb.history == []
    requires forall p :: 0 <= p < PAGES ==> m.frames.pageTable[p] == UNMAPPED
    ensures Progress(m, [], [], [Snapshot(seq(PAGES, _ => UNMAPPED), [])])
  {
  }

  /** One iteration of the main loop, keeping the loop's invariant. */
  method Advance(m: MemoryManager, a: int32, ghost prefix: seq<int32>, ghost records: seq<Record>,
                 ghost states: seq<Snapshot>) returns (r: Record, ghost s': Snapshot)
    requires Progress(m, prefix, records, states)
    modifies m, m.tlb, m.tlb.entries, m.frames, m.frames.pageTable, m.frames.memory
    ensures r.logical == a
    ensures Progress(m, prefix + [a], records + [r], states + [s'])
  {
    r, s' := Step(m, a, records, states[|prefix|]);
    TracedStep(prefix, records, states, m.frames.backing, a, r, s');
    CountStep(records, r, TlbHit);
    CountStep(records, r, PageFault);
  }
}
