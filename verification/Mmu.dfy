/** Page-table arithmetic of src/mmu.c, 64-bit build with 4-level paging (section 4.5 of the
    Intel SDM, volume 3A): the address of the entry that maps an address, its inverse, and
    where a walk of the tables leads. */
module Mmu {

  const PFN_MASK: bv64 := 0x000FFFFFFFFFF000
  const PAGE_BASE: bv64 := 0xFFFFFFFFFFFFF000
  const OFFSET_MASK: bv64 := 0xFFF
  /** The 52 bits of a physical address. */
  const PHYSICAL_MASK: bv64 := 0x000FFFFFFFFFFFFF

  const PTE_VALID: bv64 := 0x1
  const PTE_RW: bv64 := 0x2
  const PTE_PWT: bv64 := 0x8
  const PTE_PCD: bv64 := 0x10
  const PTE_ACCESSED: bv64 := 0x20
  const PTE_DIRTY: bv64 := 0x40
  const PDE_PSE: bv64 := 0x80
  const PAGE_CACHE_UC: bv64 := PTE_PCD | PTE_PWT
  const DEFAULT_PTE: bv64 := PTE_VALID | PTE_RW | PTE_DIRTY | PTE_ACCESSED

  type PmlIndex = x: bv64 | x < 0x200

  /** Bits 48 to 63 of a linear address repeat bit 47. */
  predicate Canonical(va: bv64) { va >> 47 == 0 || va >> 47 == 0x1FFFF }

  function PageOf(va: bv64): bv64 { va & PAGE_BASE }

  function OffsetOf(va: bv64): bv64 { va & OFFSET_MASK }

  // ------------------------------------------------------------------- the self map

  function LowerBound(selfMap: PmlIndex): bv64 { (selfMap << 39) | (0xFFFF << 48) }

  function UpperBound(selfMap: PmlIndex): bv64 {
    (LowerBound(selfMap) + 0x8000000000 - 1) & 0xFFFFFFFFFFFFFFF8
  }

  function AddressToPte(selfMap: PmlIndex, va: bv64): bv64 {
    ((va >> 9) | LowerBound(selfMap)) & UpperBound(selfMap)
  }

  /** A right shift of a signed 64-bit number. */
  function ShiftSigned16(x: bv64): bv64 {
    if x >> 63 == 1 then (x >> 16) | 0xFFFF000000000000 else x >> 16
  }

  /** Bits 12 to 47 of an address, where its entry's address holds them. */
  function LowBits(pte: bv64): bv64 { pte & 0x7FFFFFFFF8 }

  function EntryBits(va: bv64): bv64 { (va >> 9) & 0x7FFFFFFFF8 }

  /** The entry address that holds the given bits. */
  function EntryWith(selfMap: PmlIndex, bits: bv64): bv64 { LowerBound(selfMap) | bits }

  predicate EntryAligned(pte: bv64) { pte & 7 == 0 }

  predicate Between(low: bv64, x: bv64, high: bv64) { low <= x <= high }

  predicate InBounds(selfMap: PmlIndex, pte: bv64) { Between(LowerBound(selfMap), pte, UpperBound(selfMap)) }

  function PteToAddress(pte: bv64): bv64 { ShiftSigned16(pte << 25) }

  /** Index into the table of the given level: PTI_SHIFT + 9 * (level - 1) bits down. */
  function Pti(level: nat, va: bv64): (r: PmlIndex)
    requires 1 <= level <= 4
  {
    (match level case 1 => va >> 12 case 2 => va >> 21 case 3 => va >> 30 case _ => va >> 39) & 0x1FF
  }

  /** Byte offset of an entry in its table. */
  function Slot(index: PmlIndex): bv64 { index << 3 }

  function Join(page: bv64, offset: bv64): bv64 { page | offset }

  function CreatePte(physical: bv64, contents: bv64): bv64 { (physical & PFN_MASK) | contents }

  lemma UpperBoundBits(selfMap: PmlIndex)
    ensures UpperBound(selfMap) == LowerBound(selfMap) | 0x7FFFFFFFF8
  {}

  /** The sign bits and the index of the self map on top, the page number below. */
  lemma PteBits(selfMap: PmlIndex, va: bv64)
    ensures AddressToPte(selfMap, va) == EntryWith(selfMap, EntryBits(va))
  {
    hide UpperBound;
    UpperBoundBits(selfMap);
  }

  lemma PteRoundTrip(selfMap: PmlIndex, va: bv64)
    requires Canonical(va)
    ensures PteToAddress(AddressToPte(selfMap, va)) == PageOf(va)
  {
    hide AddressToPte, EntryBits, EntryWith, ShiftSigned16, PageOf, Canonical;
    PteBits(selfMap, va);
    ShiftedOut(selfMap, va);
    SignExtended(va);
  }

  lemma ShiftedOut(selfMap: PmlIndex, va: bv64)
    ensures EntryWith(selfMap, EntryBits(va)) << 25 == (va & 0x0000FFFFFFFFF000) << 16
  {}

  lemma SignExtended(va: bv64)
    requires Canonical(va)
    ensures ShiftSigned16((va & 0x0000FFFFFFFFF000) << 16) == PageOf(va)
  {
    if va >> 47 == 0 { SignExtendedLow(va); } else { SignExtendedHigh(va); }
  }

  lemma SignExtendedLow(va: bv64)
    requires va >> 47 == 0
    ensures ShiftSigned16((va & 0x0000FFFFFFFFF000) << 16) == PageOf(va)
  {}

  lemma SignExtendedHigh(va: bv64)
    requires va >> 47 == 0x1FFFF
    ensures ShiftSigned16((va & 0x0000FFFFFFFFF000) << 16) == PageOf(va)
  {}

  lemma PteBounds(selfMap: PmlIndex, va: bv64)
    ensures EntryAligned(AddressToPte(selfMap, va)) && InBounds(selfMap, AddressToPte(selfMap, va))
  {}

  lemma PteInjective(selfMap: PmlIndex, va: bv64, vb: bv64)
    requires Canonical(va) && Canonical(vb)
    ensures AddressToPte(selfMap, va) == AddressToPte(selfMap, vb) <==> PageOf(va) == PageOf(vb)
  {
    hide AddressToPte, PteToAddress, PageOf, Canonical;
    PteRoundTrip(selfMap, va);
    PteRoundTrip(selfMap, vb);
    PteOfPage(selfMap, va);
    PteOfPage(selfMap, vb);
  }

  lemma PteOfPage(selfMap: PmlIndex, va: bv64)
    ensures AddressToPte(selfMap, PageOf(va)) == AddressToPte(selfMap, va)
  {
    hide AddressToPte;
    PteBits(selfMap, va);
    PteBits(selfMap, PageOf(va));
  }

  /** The aligned addresses between the bounds differ in the page number only. */
  lemma BetweenBits(selfMap: PmlIndex, pte: bv64)
    requires EntryAligned(pte)
    ensures InBounds(selfMap, pte) <==> pte == EntryWith(selfMap, LowBits(pte))
  {
    hide UpperBound;
    UpperBoundBits(selfMap);
  }

  lemma PteToAddressBits(pte: bv64)
    requires EntryAligned(pte)
    ensures EntryBits(PteToAddress(pte)) == LowBits(pte)
    ensures Canonical(PteToAddress(pte)) && OffsetOf(PteToAddress(pte)) == 0
  {
    if (pte << 25) >> 63 == 1 { PteToAddressHigh(pte); } else { PteToAddressLow(pte); }
  }

  lemma PteToAddressHigh(pte: bv64)
    requires EntryAligned(pte) && (pte << 25) >> 63 == 1
    ensures EntryBits(PteToAddress(pte)) == LowBits(pte)
    ensures Canonical(PteToAddress(pte)) && OffsetOf(PteToAddress(pte)) == 0
  {}

  lemma PteToAddressLow(pte: bv64)
    requires EntryAligned(pte) && (pte << 25) >> 63 != 1
    ensures EntryBits(PteToAddress(pte)) == LowBits(pte)
    ensures Canonical(PteToAddress(pte)) && OffsetOf(PteToAddress(pte)) == 0
  {}

  /** Every aligned address between the bounds is the entry of one canonical page. */
  lemma PteOnto(selfMap: PmlIndex, pte: bv64)
    requires EntryAligned(pte)
    ensures InBounds(selfMap, pte) <==> AddressToPte(selfMap, PteToAddress(pte)) == pte
    ensures Canonical(PteToAddress(pte)) && OffsetOf(PteToAddress(pte)) == 0
  {
    hide *;
    BetweenBits(selfMap, pte);
    PteToAddressBits(pte);
    PteBits(selfMap, PteToAddress(pte));
  }

  /** MmuAddressIsInPagingRange compares with the entries of address 0 and of the last address. */
  predicate AddressIsInPagingRange(selfMap: PmlIndex, address: bv64) {
    Between(AddressToPte(selfMap, 0), address, AddressToPte(selfMap, 0xFFFFFFFFFFFFFFFF))
  }

  lemma PagingRangeExactly(selfMap: PmlIndex, pte: bv64)
    requires EntryAligned(pte)
    ensures AddressIsInPagingRange(selfMap, pte)
            <==> exists va :: Canonical(va) && AddressToPte(selfMap, va) == pte
  {
    hide *;
    PteOnto(selfMap, pte);
    RangeIsBounds(selfMap, pte);
    if AddressIsInPagingRange(selfMap, pte) {
      assert AddressToPte(selfMap, PteToAddress(pte)) == pte;
    }
    if va :| Canonical(va) && AddressToPte(selfMap, va) == pte {
      PteBounds(selfMap, va);
    }
  }

  lemma RangeIsBounds(selfMap: PmlIndex, pte: bv64)
    ensures AddressIsInPagingRange(selfMap, pte) <==> InBounds(selfMap, pte)
  {
    hide AddressToPte, LowerBound, UpperBound, Between;
    RangeStart(selfMap);
    RangeEnd(selfMap);
  }

  lemma RangeStart(selfMap: PmlIndex)
    ensures AddressToPte(selfMap, 0) == LowerBound(selfMap)
  {}

  lemma RangeEnd(selfMap: PmlIndex)
    ensures AddressToPte(selfMap, 0xFFFFFFFFFFFFFFFF) == UpperBound(selfMap)
  {}

  /** The entry's address has the self-map index on top and the indices of va one level down. */
  lemma PteIndices(selfMap: PmlIndex, va: bv64)
    ensures var pte := AddressToPte(selfMap, va);
            && Pti(4, pte) == selfMap
            && Pti(3, pte) == Pti(4, va)
            && Pti(2, pte) == Pti(3, va)
            && Pti(1, pte) == Pti(2, va)
            && OffsetOf(pte) == Slot(Pti(1, va))
  {
    hide AddressToPte;
    PteBits(selfMap, va);
  }

  // ------------------------------------------------------------------- the walk

  /** Physical memory, byte by byte. */
  type Memory = bv64 -> bv8

  /** The 8-byte little-endian word at a physical address. */
  function Word(mem: Memory, at: bv64): bv64 {
    (mem(at) as bv64) | (mem(at + 1) as bv64 << 8) | (mem(at + 2) as bv64 << 16) | (mem(at + 3) as bv64 << 24)
    | (mem(at + 4) as bv64 << 32) | (mem(at + 5) as bv64 << 40) | (mem(at + 6) as bv64 << 48) | (mem(at + 7) as bv64 << 56)
  }

  predicate Present(entry: bv64) { entry & PTE_VALID != 0 }

  predicate LargePage(entry: bv64) { entry & PDE_PSE != 0 }

  function FrameOf(entry: bv64): bv64 { entry & PFN_MASK }

  function Physical(x: bv64): bv64 { x & PHYSICAL_MASK }

  datatype Option<T> = None | Some(value: T)

  /** Where entry `index` of a table is. */
  function EntryIn(table: bv64, index: PmlIndex): bv64 { Join(table, Slot(index)) }

  function EntryAt(table: bv64, level: nat, va: bv64): bv64
    requires 1 <= level <= 4
  {
    EntryIn(table, Pti(level, va))
  }

  /** Section 4.5 of the Intel SDM: the table of a level that the translation of va uses.  The
      root is level 4; the table below is what a present entry that maps no page points to. */
  function Table(mem: Memory, root: bv64, level: nat, va: bv64): Option<bv64>
    requires 1 <= level <= 4
    decreases 4 - level
  {
    if level == 4 then Some(FrameOf(root)) else
      match Table(mem, root, level + 1, va)
      case None => None
      case Some(table) =>
        var entry := Word(mem, EntryAt(table, level + 1, va));
        if Present(entry) && !LargePage(entry) then Some(FrameOf(entry)) else None
  }

  /** Where the level-1 entry of va is. */
  function LeafAt(mem: Memory, root: bv64, va: bv64): Option<bv64> {
    match Table(mem, root, 1, va) case None => None case Some(table) => Some(EntryAt(table, 1, va))
  }

  /** Where a mapped address of a 4 KB page is; the entry's bits above the frame number stay in,
      as the code leaves them. */
  function Translate(mem: Memory, root: bv64, va: bv64): Option<bv64> {
    match LeafAt(mem, root, va)
    case None => None
    case Some(at) =>
      var entry := Word(mem, at);
      if Present(entry) then Some(Join(PageOf(entry), OffsetOf(va))) else None
  }

  /** What MmuGetPhysicalAddress returns: 0 stands for failure. */
  function OrZero(o: Option<bv64>): bv64 { if o.Some? then o.value else 0 }

  /** The root's entry `selfMap` points back to the root. */
  predicate SelfMapped(mem: Memory, root: bv64, selfMap: PmlIndex) {
    var entry := Word(mem, EntryIn(FrameOf(root), selfMap));
    Present(entry) && !LargePage(entry) && FrameOf(entry) == FrameOf(root)
  }

  /** The walk of the entry's address runs one level behind the walk of va. */
  lemma SelfMapTables(mem: Memory, root: bv64, selfMap: PmlIndex, va: bv64)
    requires SelfMapped(mem, root, selfMap)
    ensures var pte := AddressToPte(selfMap, va);
            && Table(mem, root, 3, pte) == Table(mem, root, 4, va)
            && Table(mem, root, 2, pte) == Table(mem, root, 3, va)
            && Table(mem, root, 1, pte) == Table(mem, root, 2, va)
  {
    hide AddressToPte, EntryIn, Join, Slot, Word, Pti, Present, LargePage, FrameOf, OffsetOf;
    PteIndices(selfMap, va);
  }

  /** Translating the address MmuAddressToPte gives for va leads to the very entry that the
      translation of va reads, for every va whose upper levels map tables. */
  lemma SelfMapTheorem(mem: Memory, root: bv64, selfMap: PmlIndex, va: bv64)
    requires SelfMapped(mem, root, selfMap) && LeafAt(mem, root, va).Some?
    ensures var r := Translate(mem, root, AddressToPte(selfMap, va));
            r.Some? && Some(Physical(r.value)) == LeafAt(mem, root, va)
  {
    hide AddressToPte, EntryIn, Join, Slot, Word, Pti, Present, LargePage, FrameOf, OffsetOf, Physical, PageOf;
    var pte := AddressToPte(selfMap, va);
    PteIndices(selfMap, va);
    SelfMapTables(mem, root, selfMap, va);
    var upper := Table(mem, root, 2, va).value;
    var entry := Word(mem, EntryAt(upper, 2, va));
    FrameAndIndex(entry, Pti(1, va));
  }

  lemma FrameAndIndex(entry: bv64, index: PmlIndex)
    ensures Physical(Join(PageOf(entry), Slot(index))) == EntryIn(FrameOf(entry), index)
  {}

  /** And only for those: with an upper level missing or mapping a large page it fails, unless
      it is the level above the leaf that maps the large page. */
  lemma SelfMapFails(mem: Memory, root: bv64, selfMap: PmlIndex, va: bv64)
    requires SelfMapped(mem, root, selfMap)
    ensures Translate(mem, root, AddressToPte(selfMap, va)).Some?
            <==> Table(mem, root, 2, va).Some? && Present(Word(mem, EntryAt(Table(mem, root, 2, va).value, 2, va)))
  {
    hide AddressToPte, EntryIn, Join, Slot, Word, Pti, Present, LargePage, FrameOf, OffsetOf, Physical, PageOf;
    PteIndices(selfMap, va);
    SelfMapTables(mem, root, selfMap, va);
  }

  /** A page is translated as a whole: two addresses in it differ by their offset only. */
  lemma SamePage(mem: Memory, root: bv64, va: bv64, vb: bv64)
    requires PageOf(va) == PageOf(vb)
    ensures LeafAt(mem, root, va) == LeafAt(mem, root, vb)
    ensures Translate(mem, root, va).Some? == Translate(mem, root, vb).Some?
    ensures Translate(mem, root, va).Some? ==>
              && PageOf(Translate(mem, root, va).value) == PageOf(Translate(mem, root, vb).value)
              && OffsetOf(Translate(mem, root, va).value) == OffsetOf(va)
  {
    hide Word, EntryIn, Join, Slot, Present, LargePage, FrameOf, Pti, PageOf, OffsetOf;
    SameLeaf(mem, root, va, vb);
    hide LeafAt;
    if LeafAt(mem, root, va).Some? {
      PageAndOffset(Word(mem, LeafAt(mem, root, va).value), va);
      PageAndOffset(Word(mem, LeafAt(mem, root, va).value), vb);
    }
  }

  lemma SameLeaf(mem: Memory, root: bv64, va: bv64, vb: bv64)
    requires PageOf(va) == PageOf(vb)
    ensures LeafAt(mem, root, va) == LeafAt(mem, root, vb)
  {
    hide Word, EntryIn, Present, LargePage, FrameOf, Pti, PageOf;
    SameIndices(va, vb);
    assert Table(mem, root, 3, va) == Table(mem, root, 3, vb);
    assert Table(mem, root, 2, va) == Table(mem, root, 2, vb);
  }

  lemma SameIndices(va: bv64, vb: bv64)
    requires PageOf(va) == PageOf(vb)
    ensures Pti(1, va) == Pti(1, vb) && Pti(2, va) == Pti(2, vb) && Pti(3, va) == Pti(3, vb) && Pti(4, va) == Pti(4, vb)
  {
    hide *;
    IndicesOfPage(va);
    IndicesOfPage(vb);
  }

  lemma IndicesOfPage(va: bv64)
    ensures Pti(1, va) == Pti(1, PageOf(va)) && Pti(2, va) == Pti(2, PageOf(va))
            && Pti(3, va) == Pti(3, PageOf(va)) && Pti(4, va) == Pti(4, PageOf(va))
  {}

  lemma PageAndOffset(entry: bv64, va: bv64)
    ensures PageOf(Join(PageOf(entry), OffsetOf(va))) == PageOf(entry)
    ensures OffsetOf(Join(PageOf(entry), OffsetOf(va))) == OffsetOf(va)
  {}

  // ------------------------------------------------------------------- in plain numbers

  lemma PresentExactly(entry: bv64)
    ensures Present(entry) <==> entry % 2 == 1
  {}

  lemma LargePageExactly(entry: bv64)
    ensures LargePage(entry) <==> entry / 128 % 2 == 1
  {}

  lemma FrameExactly(entry: bv64)
    ensures FrameOf(entry) == entry / 4096 % 0x100_0000_0000 * 4096
  {}

  lemma PhysicalExactly(x: bv64)
    ensures Physical(x) == x % 0x10_0000_0000_0000
  {}

  lemma JoinExactly(page: bv64, va: bv64)
    ensures Join(PageOf(page), OffsetOf(va)) == page / 4096 * 4096 + va % 4096
  {}

  lemma EntryExactly(entry: bv64, index: PmlIndex)
    ensures EntryIn(FrameOf(entry), index) == entry / 4096 % 0x100_0000_0000 * 4096 + 8 * index
  {}

  lemma PtiExactly(va: bv64)
    ensures Pti(1, va) == va / 0x1000 % 512
    ensures Pti(2, va) == va / 0x20_0000 % 512
    ensures Pti(3, va) == va / 0x4000_0000 % 512
    ensures Pti(4, va) == va / 0x80_0000_0000 % 512
  {}

  /** An entry is eight bytes, the least significant first. */
  lemma WordExactly(mem: Memory, at: bv64)
    ensures Word(mem, at) ==
            (mem(at) as bv64) + 0x100 * (mem(at + 1) as bv64) + 0x1_0000 * (mem(at + 2) as bv64)
            + 0x100_0000 * (mem(at + 3) as bv64) + 0x1_0000_0000 * (mem(at + 4) as bv64)
            + 0x100_0000_0000 * (mem(at + 5) as bv64) + 0x1_0000_0000_0000 * (mem(at + 6) as bv64)
            + 0x100_0000_0000_0000 * (mem(at + 7) as bv64)
  {}

  /** Every entry address is canonical for a self map in the upper half, and counts pages. */
  lemma PteExactly(selfMap: PmlIndex, va: bv64)
    ensures AddressToPte(selfMap, va) ==
            0xFFFF_0000_0000_0000 + selfMap * 0x80_0000_0000 + va / 0x1000 % 0x10_0000_0000 * 8
  {
    hide AddressToPte;
    PteBits(selfMap, va);
  }

  predicate Odd(entry: bv64) { entry % 2 == 1 }

  predicate BitSeven(entry: bv64) { entry / 128 % 2 == 1 }

  /** The frame an entry gives, a multiple of 4096 below 2^52. */
  function LeadsTo(entry: bv64): bv64 { entry / 4096 % 0x100_0000_0000 * 4096 }

  function LandsAt(entry: bv64, va: bv64): bv64 { entry / 4096 * 4096 + va % 4096 }

  lemma EntryNumbers(entry: bv64)
    ensures (Present(entry) <==> Odd(entry)) && (LargePage(entry) <==> BitSeven(entry))
    ensures FrameOf(entry) == LeadsTo(entry)
  {
    PresentExactly(entry);
    LargePageExactly(entry);
    FrameExactly(entry);
  }

  lemma LandsExactly(entry: bv64, va: bv64)
    ensures Join(PageOf(entry), OffsetOf(va)) == LandsAt(entry, va)
  {
    JoinExactly(entry, va);
  }

  /** The upper levels: an entry leads to a table exactly if it is odd and its bit 7 is clear;
      the root comes from CR3. */
  lemma UpperExactly(mem: Memory, root: bv64, level: nat, va: bv64)
    requires 1 <= level <= 3
    ensures Table(mem, root, 4, va) == Some(LeadsTo(root))
    ensures var above := Table(mem, root, level + 1, va);
            if above.None? then Table(mem, root, level, va) == None
            else
              var entry := Word(mem, EntryIn(above.value, Pti(level + 1, va)));
              Table(mem, root, level, va) == if Odd(entry) && !BitSeven(entry) then Some(LeadsTo(entry)) else None
  {
    hide Word, EntryIn, Pti, Present, LargePage, FrameOf, Odd, BitSeven, LeadsTo;
    EntryNumbers(root);
    var above := Table(mem, root, level + 1, va);
    if above.Some? { EntryNumbers(Word(mem, EntryIn(above.value, Pti(level + 1, va)))); }
  }

  /** The leaf: an address translates exactly if its level-1 entry is odd, to the page the
      entry gives. */
  lemma LeafExactly(mem: Memory, root: bv64, va: bv64)
    ensures var at := LeafAt(mem, root, va);
            Translate(mem, root, va) ==
            if at.Some? && Odd(Word(mem, at.value)) then Some(LandsAt(Word(mem, at.value), va)) else None
  {
    hide Word, Present, Join, PageOf, OffsetOf, LeafAt, Odd, BitSeven, LeadsTo, LandsAt;
    var at := LeafAt(mem, root, va);
    if at.Some? {
      EntryNumbers(Word(mem, at.value));
      LandsExactly(Word(mem, at.value), va);
    }
  }
}
