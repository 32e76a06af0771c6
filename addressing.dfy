/**
  * Splitting a logical address into page number and offset, and building the
  * physical address from a frame number and an offset (memory_manager.c).
  */
module Addressing {
  import opened Bits

  const PAGES: nat := 0x100          // number of logical pages and of frames
  const PAGE_MASK: nat := 0xFF
  const PAGE_SIZE: nat := 0x100      // bytes per page and per frame
  const OFFSET_BITS: nat := 8
  const OFFSET_MASK: nat := 0xFF
  const MEMORY_SIZE: nat := PAGES * PAGE_SIZE

  /** `logical_address & OFFSET_MASK`: the offset inside the page. */
  function Offset(address: int32): (offset: u8)
    ensures offset == address % PAGE_SIZE
  {
    Pow2Constants();
    AndLowMask(address, OFFSET_BITS, INT_BITS);
    And(address, OFFSET_MASK, INT_BITS)
  }

  /** `(logical_address >> OFFSET_BITS) & PAGE_MASK`: the logical page number. */
  function Page(address: int32): (page: u8)
    ensures page == (address / PAGE_SIZE) % PAGES
  {
    PageBits(address);
    And(ShiftRight(address, OFFSET_BITS), PAGE_MASK, INT_BITS)
  }

  /** Shifting out the offset bits and masking leaves the page number. */
  lemma PageBits(address: int)
    ensures And(ShiftRight(address, OFFSET_BITS), PAGE_MASK, INT_BITS) == (address / PAGE_SIZE) % PAGES
  {
    Pow2Constants();
    ShiftRightIsDiv(address, OFFSET_BITS);
    AndLowMask(ShiftRight(address, OFFSET_BITS), 8, INT_BITS);
  }

  /** `(physical_page << OFFSET_BITS) | offset`. */
  function PhysicalAddress(frame: u8, offset: u8): (physical: nat)
    ensures physical == frame * PAGE_SIZE + offset
    ensures physical < MEMORY_SIZE
  {
    Pow2Constants();
    OrDisjoint(frame, offset, OFFSET_BITS, INT_BITS);
    Or(ShiftLeft(frame, OFFSET_BITS), offset, INT_BITS)
  }

  /** The bits above the low 16 of a logical address are ignored. */
  lemma {:induction false} HighBitsIgnored(address: int32, k: int)
    requires -0x8000_0000 <= address + k * MEMORY_SIZE < 0x8000_0000
    ensures Page(address + k * MEMORY_SIZE) == Page(address)
    ensures Offset(address + k * MEMORY_SIZE) == Offset(address)
  {
    var q := address / PAGE_SIZE;
    DivModUnique(address + k * MEMORY_SIZE, PAGE_SIZE, q + k * PAGES, address % PAGE_SIZE);
    DivModUnique(q + k * PAGES, PAGES, q / PAGES + k, q % PAGES);
  }

  /** A 16-bit logical address is exactly its page and offset put back together. */
  lemma Decompose(address: int32)
    requires 0 <= address < MEMORY_SIZE
    ensures Page(address) * PAGE_SIZE + Offset(address) == address
  {
    var q := address / PAGE_SIZE;
    DivModUnique(q, PAGES, 0, q);
  }

  /** The physical address splits back into the frame and the offset it was built from. */
  lemma PhysicalSplits(frame: u8, offset: u8)
    ensures Page(PhysicalAddress(frame, offset)) == frame
    ensures Offset(PhysicalAddress(frame, offset)) == offset
  {
    DivModUnique(PhysicalAddress(frame, offset), PAGE_SIZE, frame, offset);
    DivModUnique(frame, PAGES, 0, frame);
  }
}
