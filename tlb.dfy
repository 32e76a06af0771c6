/**
  * The translation look-aside buffer of memory_manager.c: a 16-slot array
  * written in FIFO order through an ever-growing insertion counter
  * (`TLB`, `TLB_index`, `TLB_lookup`, `TLB_addition`).
  */
module Tlb {
  import opened Bits

  const TLB_SIZE: nat := 0x10

  /** `struct TLB_Entry_`: a logical page and the frame that holds it. */
  datatype Entry = Entry(page: u8, frame: u8)

  /** `MAX(TLB_index - TLB_SIZE, 0)`: the first insertion still held in the buffer. */
  function WindowStart(inserted: nat): (start: nat)
    ensures start <= inserted
    ensures inserted - start == if inserted < TLB_SIZE then inserted else TLB_SIZE
  {
    if inserted - TLB_SIZE > 0 then inserted - TLB_SIZE else 0
  }

  /** The live window: the last (at most 16) insertions of `history`, oldest first. */
  function Live(history: seq<Entry>): (window: seq<Entry>)
    ensures |window| <= TLB_SIZE
    ensures |history| >= TLB_SIZE ==> |window| == TLB_SIZE
    ensures |history| < TLB_SIZE ==> window == history
  {
    history[WindowStart(|history|)..]
  }

  /**
    * The scan of `TLB_lookup` over a window: the frame of the first entry,
    * oldest first, whose page matches, or -1 when none does.
    */
  function Find(window: seq<Entry>, page: int): (frame: int)
    ensures frame == -1 || 0 <= frame < 0x100
    ensures frame == -1 <==> forall k :: 0 <= k < |window| ==> window[k].page != page
    ensures frame != -1 ==>
      exists k :: 0 <= k < |window| && window[k].page == page && window[k].frame == frame &&
        forall j :: 0 <= j < k ==> window[j].page != page
  {
    if window == [] then -1
    else if window[0].page == page then window[0].frame
    else
      var frame := Find(window[1..], page);
      assert forall k :: 1 <= k < |window| ==> window[1..][k - 1] == window[k];
      frame
  }

  /** No logical page occurs twice in a window. */
  ghost predicate DistinctPages(window: seq<Entry>)
  {
    forall j, k :: 0 <= j < k < |window| ==> window[j].page != window[k].page
  }

  /** In a window without duplicates, a lookup finds the frame of the one entry for the page. */
  lemma FindUnique(window: seq<Entry>, k: nat)
    requires DistinctPages(window) && k < |window|
    ensures Find(window, window[k].page) == window[k].frame
  {
  }

  /** FIFO insertion: the new entry joins the newest end; when full, the oldest drops out. */
  lemma LiveAppend(before: seq<Entry>, e: Entry, after: seq<Entry>)
    requires after == before + [e]
    ensures Live(after) == (if |before| >= TLB_SIZE then Live(before)[1..] else Live(before)) + [e]
  {
  }

  /**
    * Inserting a page that missed keeps the window free of duplicates, and the
    * page is then found with the inserted frame.
    */
  lemma InsertMissed(before: seq<Entry>, e: Entry, after: seq<Entry>)
    requires after == before + [e]
    requires DistinctPages(Live(before))
    requires Find(Live(before), e.page) == -1
    ensures DistinctPages(Live(after))
    ensures Find(Live(after), e.page) == e.frame
  {
    LiveAppend(before, e, after);
    var d := if |before| >= TLB_SIZE then 1 else 0;
    var w := Live(after);
    assert w == Live(before)[d..] + [e];
    forall j, k | 0 <= j < k < |w|
      ensures w[j].page != w[k].page
    {
      assert w[j] == Live(before)[j + d];
      if k < |w| - 1 {
        assert w[k] == Live(before)[k + d];
      }
    }
    FindUnique(w, |w| - 1);
  }

  /**
    * Seventeen insertions of distinct pages evict the first of them: its
    * lookup misses while each of the other sixteen finds its own frame.
    */
  lemma FifoEviction(history: seq<Entry>, inserted: seq<Entry>)
    requires |inserted| == TLB_SIZE + 1
    requires DistinctPages(inserted)
    ensures Find(Live(history + inserted), inserted[0].page) == -1
    ensures forall k :: 1 <= k < |inserted| ==>
      Find(Live(history + inserted), inserted[k].page) == inserted[k].frame
  {
    var h := history + inserted;
    assert Live(h) == inserted[1..];
    forall k | 1 <= k < |inserted|
      ensures Find(Live(h), inserted[k].page) == inserted[k].frame
    {
      FindUnique(inserted[1..], k - 1);
    }
  }

  /**
    * The buffer: the 16-slot array `TLB` and the insertion counter `TLB_index`.
    * `history` is the sequence of every entry ever inserted; the slots hold
    * its live window.
    */
  class Tlb {
    const entries: array<Entry>
    var index: nat
    ghost var history: seq<Entry>

    ghost predicate Valid()
      reads this, entries
    {
      entries.Length == TLB_SIZE &&
      |history| == index &&
      forall i :: WindowStart(index) <= i < index ==> entries[i % TLB_SIZE] == history[i]
    }

    /** The zero-initialised global array, with nothing inserted yet. */
    constructor ()
      ensures Valid() && fresh(entries)
      ensures index == 0 && history == []
    {
      entries := new Entry[TLB_SIZE](_ => Entry(0, 0));
      index := 0;
      history := [];
    }

    /** `TLB_lookup`: scan the live slots oldest first; the frame of the first match, or -1. */
    method Lookup(page: u8) returns (frame: int)
      requires Valid()
      ensures frame == Find(Live(history), page)
    {
      var i := WindowStart(index);
      while i < index
        invariant WindowStart(index) <= i <= index
        invariant Find(Live(history), page) == Find(history[i..], page)
      {
        var entry := entries[i % TLB_SIZE];
        assert entry == history[i];
        assert history[i..][0] == history[i] && history[i..][1..] == history[i + 1..];
        if entry.page == page {
          return entry.frame;
        }
        i := i + 1;
      }
      return -1;
    }

    /** `TLB_addition`: write slot `TLB_index % TLB_SIZE`, then advance the counter. */
    method Add(page: u8, frame: u8)
      requires Valid()
      modifies this, entries
      ensures Valid()
      ensures index == old(index) + 1
      ensures history == old(history) + [Entry(page, frame)]
      ensures entries[old(index) % TLB_SIZE] == Entry(page, frame)
      ensures forall k :: 0 <= k < TLB_SIZE && k != old(index) % TLB_SIZE ==> entries[k] == old(entries[k])
    {
      entries[index % TLB_SIZE] := Entry(page, frame);
      index := index + 1;
      history := history + [Entry(page, frame)];
    }
  }
}
