/**
  * The main loop of memory_manager.c as values: what the records of a run
  * are, given the addresses, the backing store and the trace of page tables
  * and TLB insertions the loop goes through.
  */
module Trace {
  import opened Bits
  import opened Addressing
  import opened Tlb
  import opened Translator

  /** The logical pages touched by a sequence of addresses. */
  ghost function Touched(addresses: seq<int32>): (pages: set<int>)
    ensures forall k :: 0 <= k < |addresses| ==> Page(addresses[k]) in pages
  {
    if addresses == [] then {}
    else
      var init := addresses[..|addresses| - 1];
      assert forall k :: 0 <= k < |init| ==> init[k] == addresses[k];
      Touched(init) + {Page(addresses[|addresses| - 1])}
  }

  /** How many records were resolved in the way `outcome` names. */
  function Count(records: seq<Record>, outcome: Outcome): (n: nat)
    ensures n <= |records|
  {
    if records == [] then 0
    else Count(records[..|records| - 1], outcome) + (if records[|records| - 1].outcome == outcome then 1 else 0)
  }

  /** The pages with a frame are exactly the pages the addresses touched. */
  ghost predicate ResidentTouched(addresses: seq<int32>, table: seq<int>)
  {
    |table| == PAGES &&
    forall p :: 0 <= p < PAGES ==> (table[p] != UNMAPPED <==> p in Touched(addresses))
  }

  /** Each record holds its address, the frame the table gives its page with the offset, and the backing-store byte. */
  ghost predicate Located(addresses: seq<int32>, records: seq<Record>, table: seq<int>, backing: seq<int8>)
  {
    |records| == |addresses| && |table| == PAGES && |backing| == MEMORY_SIZE &&
    forall k :: 0 <= k < |records| ==>
      records[k].logical == addresses[k] &&
      0 <= table[Page(addresses[k])] < PAGES &&
      records[k].physical == table[Page(addresses[k])] * PAGE_SIZE + Offset(addresses[k]) &&
      records[k].value == backing[ByteIndex(Page(addresses[k]), Offset(addresses[k]))]
  }

  /** A record faults exactly at the first occurrence of its page. */
  ghost predicate FaultsFirst(addresses: seq<int32>, records: seq<Record>)
  {
    |records| == |addresses| &&
    forall k :: 0 <= k < |records| ==>
      (records[k].outcome == PageFault <==> Page(addresses[k]) !in Touched(addresses[..k]))
  }

  /** The page of the n-th fault holds frame n. */
  ghost predicate FramesInOrder(addresses: seq<int32>, records: seq<Record>, table: seq<int>)
  {
    |records| == |addresses| && |table| == PAGES &&
    forall k :: 0 <= k < |records| && records[k].outcome == PageFault ==>
      table[Page(addresses[k])] == |Touched(addresses[..k])|
  }

  /** An address on the same page as the one before it is a TLB hit. */
  ghost predicate RepeatsHit(addresses: seq<int32>, records: seq<Record>)
  {
    |records| == |addresses| &&
    forall k :: 0 < k < |records| && Page(addresses[k]) == Page(addresses[k - 1]) ==> records[k].outcome == TlbHit
  }

  /** A new page joins the touched set; a page seen before leaves it as it was. */
  lemma TouchedAppend(addresses: seq<int32>, a: int32)
    ensures Touched(addresses + [a]) == Touched(addresses) + {Page(a)}
    ensures |Touched(addresses + [a])| == |Touched(addresses)| + (if Page(a) in Touched(addresses) then 0 else 1)
  {
    assert (addresses + [a])[..|addresses|] == addresses;
    if Page(a) in Touched(addresses) {
      assert Touched(addresses) + {Page(a)} == Touched(addresses);
    } else {
      assert |Touched(addresses) + {Page(a)}| == |Touched(addresses)| + 1;
    }
  }

  /** The next prefix of the input is the current one and one more address. */
  lemma PrefixStep(addresses: seq<int32>, i: nat)
    requires i < |addresses|
    ensures addresses[..i + 1] == addresses[..i] + [addresses[i]]
  {
  }

  /** A prefix of at most `|s|` elements ignores what was appended to `s`. */
  lemma TakeAppend<T>(s: seq<T>, x: T, k: nat)
    requires k <= |s|
    ensures (s + [x])[..k] == s[..k]
    ensures (s + [x])[..|s|] == s
  {
  }

  /** Appending leaves the elements already there in place. */
  lemma IndexAppend<T>(s: seq<T>, x: T, k: nat)
    requires k < |s|
    ensures (s + [x])[k] == s[k]
  {
  }

  /** The prefix of length `k + 1` is the prefix of length `k` and element `k`. */
  lemma TakeNext<T>(s: seq<T>, k: nat)
    requires k < |s|
    ensures s[..k] + [s[k]] == s[..k + 1]
  {
  }

  /** Resolving `a` maps its page and no other, so the resident pages stay the touched ones. */
  lemma ResidentStep(addresses: seq<int32>, table: seq<int>, a: int32, table': seq<int>)
    requires ResidentTouched(addresses, table)
    requires |table'| == PAGES && table'[Page(a)] != UNMAPPED
    requires forall p :: 0 <= p < PAGES && p != Page(a) ==> table'[p] == table[p]
    ensures ResidentTouched(addresses + [a], table')
  {
    TouchedAppend(addresses, a);
  }

  /** The new record is located by the new table, and the old records still are, since mapped slots keep their frame. */
  lemma LocatedStep(addresses: seq<int32>, records: seq<Record>, table: seq<int>, backing: seq<int8>,
                    a: int32, r: Record, table': seq<int>)
    requires Located(addresses, records, table, backing)
    requires |table'| == PAGES && 0 <= table'[Page(a)] < PAGES
    requires forall p :: 0 <= p < PAGES && p != Page(a) ==> table'[p] == table[p]
    requires table[Page(a)] != UNMAPPED ==> table'[Page(a)] == table[Page(a)]
    requires r.logical == a
    requires r.physical == table'[Page(a)] * PAGE_SIZE + Offset(a)
    requires r.value == backing[ByteIndex(Page(a), Offset(a))]
    ensures Located(addresses + [a], records + [r], table', backing)
  {
    var addresses', records' := addresses + [a], records + [r];
    forall k | 0 <= k < |records'|
      ensures records'[k].logical == addresses'[k] &&
        0 <= table'[Page(addresses'[k])] < PAGES &&
        records'[k].physical == table'[Page(addresses'[k])] * PAGE_SIZE + Offset(addresses'[k]) &&
        records'[k].value == backing[ByteIndex(Page(addresses'[k]), Offset(addresses'[k]))]
    {
      if k < |records| {
        IndexAppend(records, r, k);
        IndexAppend(addresses, a, k);
        assert table[Page(addresses[k])] != UNMAPPED;
      }
    }
  }

  /** A record that faults exactly when its page is new keeps the faults at first occurrences. */
  lemma FaultsFirstStep(addresses: seq<int32>, records: seq<Record>, a: int32, r: Record)
    requires FaultsFirst(addresses, records)
    requires r.outcome == PageFault <==> Page(a) !in Touched(addresses)
    ensures FaultsFirst(addresses + [a], records + [r])
  {
    var addresses', records' := addresses + [a], records + [r];
    forall k | 0 <= k < |records'|
      ensures records'[k].outcome == PageFault <==> Page(addresses'[k]) !in Touched(addresses'[..k])
    {
      TakeAppend(addresses, a, k);
      if k < |records| {
        IndexAppend(records, r, k);
        IndexAppend(addresses, a, k);
      }
    }
  }

  /** A fault that takes the frame numbered by the pages touched so far keeps the frames in fault order. */
  lemma FramesInOrderStep(addresses: seq<int32>, records: seq<Record>, table: seq<int>, a: int32, r: Record, table': seq<int>)
    requires FramesInOrder(addresses, records, table) && FaultsFirst(addresses, records)
    requires |table'| == PAGES
    requires forall p :: 0 <= p < PAGES && p != Page(a) ==> table'[p] == table[p]
    requires r.outcome != PageFault ==> table'[Page(a)] == table[Page(a)]
    requires r.outcome == PageFault ==> table'[Page(a)] == |Touched(addresses)| && Page(a) !in Touched(addresses)
    ensures FramesInOrder(addresses + [a], records + [r], table')
  {
    var addresses', records' := addresses + [a], records + [r];
    forall k | 0 <= k < |records'| && records'[k].outcome == PageFault
      ensures table'[Page(addresses'[k])] == |Touched(addresses'[..k])|
    {
      if k < |records| {
        TakeAppend(addresses, a, k);
        IndexAppend(records, r, k);
        IndexAppend(addresses, a, k);
        if Page(addresses[k]) == Page(a) {
          assert Page(a) in Touched(addresses);
        }
      } else {
        TakeAppend(addresses, a, k);
      }
    }
  }

  /** Counting over one more record. */
  lemma CountStep(records: seq<Record>, r: Record, outcome: Outcome)
    ensures Count(records + [r], outcome) == Count(records, outcome) + (if r.outcome == outcome then 1 else 0)
  {
    assert (records + [r])[..|records|] == records;
  }

  /** No record is both a TLB hit and a page fault, so hits and faults together never exceed the records. */
  lemma {:induction false} CountsDisjoint(records: seq<Record>)
    ensures Count(records, TlbHit) + Count(records, PageFault) <= |records|
    decreases |records|
  {
    if records != [] {
      CountsDisjoint(records[..|records| - 1]);
    }
  }

  /** The logical pages of a sequence of TLB entries, in order. */
  ghost function PagesOf(entries: seq<Entry>): (pages: seq<int>)
    ensures |pages| == |entries|
    ensures forall k :: 0 <= k < |entries| ==> pages[k] == entries[k].page
  {
    seq(|entries|, k requires 0 <= k < |entries| => entries[k].page)
  }

  /** The last (at most 16) of the pages inserted so far: the ones a lookup scans. */
  ghost function Recent(pages: seq<int>): (recent: seq<int>)
    ensures |recent| <= TLB_SIZE
    ensures |pages| > 0 ==> |recent| > 0 && recent[|recent| - 1] == pages[|pages| - 1]
  {
    pages[WindowStart(|pages|)..]
  }

  /**
    * The pages the TLB receives over a run, in order, defined from the
    * addresses alone: an address whose page is among the recent insertions
    * adds nothing, any other adds its page.
    */
  ghost function Inserted(addresses: seq<int32>): (pages: seq<int>)
    ensures |pages| <= |addresses|
  {
    if addresses == [] then []
    else
      var before := Inserted(addresses[..|addresses| - 1]);
      var p := Page(addresses[|addresses| - 1]);
      if p in Recent(before) then before else before + [p]
  }

  /** One more address adds its page to the insertions exactly when the page is not recent. */
  lemma InsertedAppend(addresses: seq<int32>, a: int32)
    ensures Inserted(addresses + [a]) ==
      if Page(a) in Recent(Inserted(addresses)) then Inserted(addresses)
      else Inserted(addresses) + [Page(a)]
  {
    TakeAppend(addresses, a, 0);
  }

  /** One more entry adds its page to the pages of a history. */
  lemma PagesOfAppend(history: seq<Entry>, e: Entry)
    ensures PagesOf(history + [e]) == PagesOf(history) + [e.page]
  {
  }

  /** A lookup in the live window finds a page exactly when the page is among the recent insertions. */
  lemma FindRecent(history: seq<Entry>, page: int)
    ensures Find(Live(history), page) != -1 <==> page in Recent(PagesOf(history))
  {
    var window, recent := Live(history), Recent(PagesOf(history));
    assert |window| == |recent|;
    assert forall k :: 0 <= k < |window| ==> recent[k] == window[k].page;
    if page in recent {
      var k :| 0 <= k < |recent| && recent[k] == page;
      assert window[k].page == page;
    }
  }

  /** The page of the last address is always among the recent insertions afterwards. */
  lemma LastRecent(addresses: seq<int32>)
    requires |addresses| > 0
    ensures Page(addresses[|addresses| - 1]) in Recent(Inserted(addresses))
  {
    var before := Inserted(addresses[..|addresses| - 1]);
    var p := Page(addresses[|addresses| - 1]);
    if p !in Recent(before) {
      var after := before + [p];
      assert Recent(after)[|Recent(after)| - 1] == p;
    }
  }

  /** `history` holds the TLB insertions the addresses make, page for page. */
  ghost predicate InsertedBy(addresses: seq<int32>, history: seq<Entry>)
  {
    PagesOf(history) == Inserted(addresses)
  }

  /** A record is a TLB hit exactly when its page is among the recent insertions. */
  ghost predicate HitsRecent(addresses: seq<int32>, records: seq<Record>)
  {
    |records| == |addresses| &&
    forall k :: 0 <= k < |records| ==>
      (records[k].outcome == TlbHit <==> Page(addresses[k]) in Recent(Inserted(addresses[..k])))
  }

  /**
    * A lookup that hits exactly when the live window holds the page, followed
    * by an insertion of the page on a miss, makes the insertions `Inserted`
    * describes; and it hits exactly when the page is among the recent ones.
    */
  lemma InsertedStep(addresses: seq<int32>, history: seq<Entry>, a: int32, hit: bool, frame: u8, history': seq<Entry>)
    requires InsertedBy(addresses, history)
    requires hit <==> Find(Live(history), Page(a)) != -1
    requires history' == if hit then history else history + [Entry(Page(a), frame)]
    ensures hit <==> Page(a) in Recent(Inserted(addresses))
    ensures InsertedBy(addresses + [a], history')
  {
    InsertedAppend(addresses, a);
    FindRecent(history, Page(a));
    if !hit {
      PagesOfAppend(history, Entry(Page(a), frame));
    }
  }

  /** A record that hits exactly when its page is among the recent insertions keeps hits recent. */
  lemma HitsRecentStep(addresses: seq<int32>, records: seq<Record>, a: int32, r: Record)
    requires HitsRecent(addresses, records)
    requires r.outcome == TlbHit <==> Page(a) in Recent(Inserted(addresses))
    ensures HitsRecent(addresses + [a], records + [r])
  {
    var addresses', records' := addresses + [a], records + [r];
    forall k | 0 <= k < |records'|
      ensures records'[k].outcome == TlbHit <==> Page(addresses'[k]) in Recent(Inserted(addresses'[..k]))
    {
      if k < |records| {
        TakeAppend(addresses, a, k);
        IndexAppend(records, r, k);
        IndexAppend(addresses, a, k);
      } else {
        TakeAppend(addresses, a, 0);
      }
    }
  }

  /** With hits exactly at recent pages, an address on the same page as the one before it is a TLB hit. */
  lemma RepeatsHitFromRecent(addresses: seq<int32>, records: seq<Record>)
    requires HitsRecent(addresses, records)
    ensures RepeatsHit(addresses, records)
  {
    forall k | 0 < k < |records| && Page(addresses[k]) == Page(addresses[k - 1])
      ensures records[k].outcome == TlbHit
    {
      LastRecent(addresses[..k]);
      assert addresses[..k][k - 1] == addresses[k - 1];
    }
  }

  /** The state the main loop keeps between two addresses, as values: the page table and every TLB insertion so far. */
  datatype Snapshot = Snapshot(table: seq<int>, tlb: seq<Entry>)

  /** Everything the records of a prefix of the input say, given the state they leave behind. */
  ghost predicate Explains(addresses: seq<int32>, records: seq<Record>, s: Snapshot, backing: seq<int8>)
  {
    ResidentTouched(addresses, s.table) &&
    Located(addresses, records, s.table, backing) &&
    FaultsFirst(addresses, records) &&
    FramesInOrder(addresses, records, s.table) &&
    InsertedBy(addresses, s.tlb) &&
    HitsRecent(addresses, records) &&
    Count(records, PageFault) == |Touched(addresses)|
  }

  /**
    * How the main loop resolves address `a` after `records`, taking state `s`
    * to `s'`: only the page's own slot of the page table may change, and only
    * when it was unmapped; the record holds the address, the frame with the
    * offset, and the backing-store byte; it faults exactly when the page was
    * unmapped, and the faulting page gets the frame whose number is the count
    * of faults so far; it hits the TLB exactly when the live window holds the
    * page, and otherwise the page and its frame are inserted into the TLB.
    */
  ghost predicate Resolves(records: seq<Record>, s: Snapshot, backing: seq<int8>, a: int32, r: Record, s': Snapshot)
  {
    |s.table| == PAGES && |s'.table| == PAGES && |backing| == MEMORY_SIZE &&
    0 <= s'.table[Page(a)] < PAGES &&
    s'.table == s.table[Page(a) := s'.table[Page(a)]] &&
    (s.table[Page(a)] != UNMAPPED ==> s'.table[Page(a)] == s.table[Page(a)]) &&
    r.logical == a &&
    r.physical == s'.table[Page(a)] * PAGE_SIZE + Offset(a) &&
    r.value == backing[ByteIndex(Page(a), Offset(a))] &&
    (r.outcome == PageFault <==> s.table[Page(a)] == UNMAPPED) &&
    (r.outcome == PageFault ==> s'.table[Page(a)] == Count(records, PageFault)) &&
    (r.outcome == TlbHit <==> Find(Live(s.tlb), Page(a)) != -1) &&
    s'.tlb == if r.outcome == TlbHit then s.tlb else s.tlb + [Entry(Page(a), s'.table[Page(a)])]
  }

  /** One more translated address, resolved as the translation pipeline resolves it, keeps the records explained. */
  lemma ExplainsStep(addresses: seq<int32>, records: seq<Record>, s: Snapshot, backing: seq<int8>,
                     a: int32, r: Record, s': Snapshot)
    requires Explains(addresses, records, s, backing)
    requires Resolves(records, s, backing, a, r, s')
    ensures Explains(addresses + [a], records + [r], s', backing)
  {
    var table, table' := s.table, s'.table;
    TouchedAppend(addresses, a);
    ResidentStep(addresses, table, a, table');
    LocatedStep(addresses, records, table, backing, a, r, table');
    FaultsFirstStep(addresses, records, a, r);
    FramesInOrderStep(addresses, records, table, a, r, table');
    InsertedStep(addresses, s.tlb, a, r.outcome == TlbHit, table'[Page(a)], s'.tlb);
    HitsRecentStep(addresses, records, a, r);
    CountStep(records, r, PageFault);
  }

  /** The state at program start: every page unmapped, nothing inserted into the TLB. */
  ghost predicate Initial(s: Snapshot)
  {
    |s.table| == PAGES && s.tlb == [] &&
    forall p :: 0 <= p < PAGES ==> s.table[p] == UNMAPPED
  }

  /**
    * The trace of the main loop: `states[k]` is the state before the `k`-th
    * address, starting from the initial one, and each address was resolved
    * as `Resolves` says.
    */
  ghost predicate Traced(addresses: seq<int32>, records: seq<Record>, states: seq<Snapshot>, backing: seq<int8>)
  {
    |records| == |addresses| && |states| == |addresses| + 1 && |backing| == MEMORY_SIZE &&
    Initial(states[0]) && |states[|addresses|].table| == PAGES &&
    forall n :: 0 <= n < |addresses| ==>
      Resolves(records[..n], states[n], backing, addresses[n], records[n], states[n + 1])
  }

  /** Extending the trace by one resolved address. */
  lemma TracedStep(addresses: seq<int32>, records: seq<Record>, states: seq<Snapshot>, backing: seq<int8>,
                   a: int32, r: Record, s': Snapshot)
    requires Traced(addresses, records, states, backing)
    requires Resolves(records, states[|addresses|], backing, a, r, s')
    ensures Traced(addresses + [a], records + [r], states + [s'], backing)
  {
    var addresses', records', states' := addresses + [a], records + [r], states + [s'];
    forall n | 0 <= n < |addresses'|
      ensures Resolves(records'[..n], states'[n], backing, addresses'[n], records'[n], states'[n + 1])
    {
      if n < |addresses| {
        assert Resolves(records[..n], states[n], backing, addresses[n], records[n], states[n + 1]);
        TakeAppend(records, r, n);
        IndexAppend(addresses, a, n);
        IndexAppend(records, r, n);
        IndexAppend(states, s', n);
        IndexAppend(states, s', n + 1);
      } else {
        TakeAppend(records, r, n);
        IndexAppend(states, s', n);
      }
    }
    IndexAppend(states, s', 0);
  }

  /** The first `k` steps of a trace explain the first `k` records, by induction on `k`. */
  lemma {:induction false} TracedExplainsUpTo(addresses: seq<int32>, records: seq<Record>, states: seq<Snapshot>,
                                              backing: seq<int8>, k: nat)
    requires Traced(addresses, records, states, backing)
    requires k <= |addresses|
    ensures Explains(addresses[..k], records[..k], states[k], backing)
  {
    if k == 0 {
      assert Inserted(addresses[..0]) == [] && PagesOf(states[0].tlb) == [];
    } else {
      TracedExplainsUpTo(addresses, records, states, backing, k - 1);
      ExplainsStep(addresses[..k - 1], records[..k - 1], states[k - 1], backing, addresses[k - 1], records[k - 1], states[k]);
      TakeNext(addresses, k - 1);
      TakeNext(records, k - 1);
    }
  }

  /** Every trace of the main loop explains its records. */
  lemma TracedExplains(addresses: seq<int32>, records: seq<Record>, states: seq<Snapshot>, backing: seq<int8>)
    requires Traced(addresses, records, states, backing)
    ensures Explains(addresses, records, states[|addresses|], backing)
  {
    TracedExplainsUpTo(addresses, records, states, backing, |addresses|);
    assert addresses[..|addresses|] == addresses && records[..|records|] == records;
  }

  /**
    * Distinct resident pages have distinct frames, so frames coincide exactly
    * when pages do; and the same address always gives the same record contents.
    */
  lemma SharedFrames(addresses: seq<int32>, records: seq<Record>, table: seq<int>, backing: seq<int8>)
    requires Located(addresses, records, table, backing)
    requires forall p, q :: 0 <= p < q < PAGES && table[p] != UNMAPPED ==> table[p] != table[q]
    ensures forall k :: 0 <= k < |records| ==>
      records[k].physical / PAGE_SIZE == table[Page(addresses[k])] && records[k].physical % PAGE_SIZE == Offset(addresses[k])
    ensures forall j, k :: 0 <= j < |records| && 0 <= k < |records| ==>
      (records[j].physical / PAGE_SIZE == records[k].physical / PAGE_SIZE <==> Page(addresses[j]) == Page(addresses[k]))
    ensures forall j, k :: 0 <= j < |records| && 0 <= k < |records| && addresses[j] == addresses[k] ==>
      records[j].physical == records[k].physical && records[j].value == records[k].value
  {
    forall k | 0 <= k < |records|
      ensures records[k].physical / PAGE_SIZE == table[Page(addresses[k])] && records[k].physical % PAGE_SIZE == Offset(addresses[k])
    {
      DivModUnique(records[k].physical, PAGE_SIZE, table[Page(addresses[k])], Offset(addresses[k]));
    }
  }

  /** What a trace of the whole input says about its records, given that distinct pages have distinct frames. */
  lemma TraceMeans(addresses: seq<int32>, records: seq<Record>, states: seq<Snapshot>, backing: seq<int8>)
    requires Traced(addresses, records, states, backing)
    requires forall p, q :: 0 <= p < q < PAGES && states[|addresses|].table[p] != UNMAPPED ==>
      states[|addresses|].table[p] != states[|addresses|].table[q]
    ensures |records| == |addresses|
    ensures Count(records, PageFault) == |Touched(addresses)|
    // each record: the address, its offset kept in the physical address, the backing-store byte
    ensures forall k :: 0 <= k < |records| ==>
      records[k].logical == addresses[k] &&
      records[k].physical % PAGE_SIZE == Offset(addresses[k]) &&
      records[k].value == backing[ByteIndex(Page(addresses[k]), Offset(addresses[k]))]
    // a page faults exactly at its first occurrence, and the n-th new page gets frame n
    ensures forall k :: 0 <= k < |records| ==>
      (records[k].outcome == PageFault <==> Page(addresses[k]) !in Touched(addresses[..k]))
    ensures forall k :: 0 <= k < |records| && records[k].outcome == PageFault ==>
      records[k].physical / PAGE_SIZE == |Touched(addresses[..k])|
    // two addresses share a frame exactly when they share a logical page
    ensures forall j, k :: 0 <= j < |records| && 0 <= k < |records| ==>
      (records[j].physical / PAGE_SIZE == records[k].physical / PAGE_SIZE <==> Page(addresses[j]) == Page(addresses[k]))
    // the same address always yields the same physical address and value
    ensures forall j, k :: 0 <= j < |records| && 0 <= k < |records| && addresses[j] == addresses[k] ==>
      records[j].physical == records[k].physical && records[j].value == records[k].value
  {
    TracedExplains(addresses, records, states, backing);
    SharedFrames(addresses, records, states[|addresses|].table, backing);
  }

  /** Which records of a trace of the whole input are TLB hits. */
  lemma TraceHits(addresses: seq<int32>, records: seq<Record>, states: seq<Snapshot>, backing: seq<int8>)
    requires Traced(addresses, records, states, backing)
    ensures |records| == |addresses|
    // a TLB hit exactly when the page is among the last 16 pages inserted into the TLB
    ensures forall k :: 0 <= k < |records| ==>
      (records[k].outcome == TlbHit <==> Page(addresses[k]) in Recent(Inserted(addresses[..k])))
    // an address on the same page as the one before it is a TLB hit
    ensures forall k :: 0 < k < |records| && Page(addresses[k]) == Page(addresses[k - 1]) ==> records[k].outcome == TlbHit
  {
    TracedExplains(addresses, records, states, backing);
    RepeatsHitFromRecent(addresses, records);
  }
}
