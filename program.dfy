/**
  * The main loop of memory_manager.c: translate every logical address of the
  * input in order, producing one output record per address, and the final
  * statistics (addresses translated, page faults, TLB hits).
  */
module Program {
  import opened Bits
  import opened Addressing
  import opened Tlb
  import opened Translator
  import opened Trace
  import opened Iteration

  /**
    * The main loop over the input addresses, from the initial state of the
    * globals: every address is translated in order and its record appended.
    */
  method TranslateAll(m: MemoryManager, addresses: seq<int32>) returns (records: seq<Record>, ghost states: seq<Snapshot>)
    requires m.Valid() && m.total == 0 && m.hits == 0 && m.frames.faults == 0 && m.tlb.history == []
    requires forall p :: 0 <= p < PAGES ==> m.frames.pageTable[p] == UNMAPPED
    modifies m, m.tlb, m.tlb.entries, m.frames, m.frames.pageTable, m.frames.memory
    ensures Progress(m, addresses, records, states)
  {
    records := [];
    ghost var prefix: seq<int32> := [];
    states := [Snapshot(seq(PAGES, _ => UNMAPPED), [])];
    Started(m);
    var i := 0;
    while i < |addresses|
      invariant 0 <= i <= |addresses| && prefix == addresses[..i]
      invariant Progress(m, prefix, records, states)
    {
      var r;
      ghost var s';
      r, s' := Advance(m, addresses[i], prefix, records, states);
      PrefixStep(addresses, i);
      records, states, prefix := records + [r], states + [s'], prefix + [addresses[i]];
      i := i + 1;
    }
    assert prefix == addresses;
  }

  /**
    * The whole run over the addresses of the input file, from the initial
    * state of the globals: the output records and the statistics printed at
    * the end.
    */
  method Run(backing: seq<int8>, addresses: seq<int32>) returns (records: seq<Record>, total: nat, hits: nat, faults: nat)
    requires |backing| == MEMORY_SIZE
    ensures total == |records| == |addresses|
    ensures hits == Count(records, TlbHit) && faults == Count(records, PageFault)
    ensures hits + faults <= total
    ensures faults == |Touched(addresses)| <= PAGES
    // each record: the address, its offset kept in the physical address, the backing-store byte
    ensures forall k :: 0 <= k < |records| ==>
      records[k].logical == addresses[k] &&
      records[k].physical % PAGE_SIZE == Offset(addresses[k]) &&
      records[k].value == backing[ByteIndex(Page(addresses[k]), Offset(addresses[k]))]
    // a page faults exactly at its first occurrence, and the n-th new page gets frame n
    ensures forall k :: 0 <= k < |records| ==>
      (records[k].outcome == PageFault <==> Page(addresses[k]) !in Touched(addresses[..k]))
    ensures forall k :: 0 <= k < |records| && records[k].outcome == PageFault ==>
      records[k].physical / PAGE_SIZE == |Touched(addresses[..k])|
    // a TLB hit exactly when the page is among the last 16 pages inserted into the TLB
    ensures forall k :: 0 <= k < |records| ==>
      (records[k].outcome == TlbHit <==> Page(addresses[k]) in Recent(Inserted(addresses[..k])))
    // two addresses share a frame exactly when they share a logical page
    ensures forall j, k :: 0 <= j < |records| && 0 <= k < |records| ==>
      (records[j].physical / PAGE_SIZE == records[k].physical / PAGE_SIZE <==> Page(addresses[j]) == Page(addresses[k]))
    // the same address always yields the same physical address and value
    ensures forall j, k :: 0 <= j < |records| && 0 <= k < |records| && addresses[j] == addresses[k] ==>
      records[j].physical == records[k].physical && records[j].value == records[k].value
    // an address on the same page as the one before it is a TLB hit
    ensures forall k :: 0 < k < |records| && Page(addresses[k]) == Page(addresses[k - 1]) ==> records[k].outcome == TlbHit
  {
    var m := new MemoryManager(backing);
    ghost var states;
    records, states := TranslateAll(m, addresses);
    total, hits, faults := m.total, m.hits, m.frames.faults;
    MirrorInjective(m.frames.pageTable, states[|addresses|].table);
    CountsDisjoint(records);
    TraceMeans(addresses, records, states, backing);
    TraceHits(addresses, records, states, backing);
  }
}
