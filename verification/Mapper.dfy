/** The borrowed mapping slots of src/mmu.c and what is read through them: the walk of another
    process's tables, and the guest-instruction fetch of src/exits.c. */
module Mapper {
  import opened Mmu

  const MAX_MAPPING_SLOTS := 4
  const ZERO_PTE: bv64 := 0

  /** The slots of one processor: which are in use, and their page-table entries. */
  datatype Slots = Slots(inUse: seq<bool>, pte: seq<bv64>) {
    predicate Whole() { |inUse| == |pte| == MAX_MAPPING_SLOTS }
  }

  /** Index of the first free slot, or their number. */
  function FirstFree(inUse: seq<bool>): (k: nat)
    ensures k <= |inUse| && (k < |inUse| ==> !inUse[k])
    ensures forall j :: 0 <= j < k ==> inUse[j]
  {
    if inUse == [] || !inUse[0] then 0 else 1 + FirstFree(inUse[1..])
  }

  predicate HasFree(s: Slots) { FirstFree(s.inUse) < |s.inUse| }

  /** The first free slot taken for the page of a physical address. */
  function Taken(s: Slots, pte: bv64): Slots
    requires s.Whole() && HasFree(s)
  {
    var k := FirstFree(s.inUse);
    Slots(s.inUse[k := true], s.pte[k := pte])
  }

  /** After a slot was taken and given back: only its entry is gone. */
  function Settled(s: Slots): (r: Slots)
    requires s.Whole()
    ensures r.Whole() && r.inUse == s.inUse
  {
    if HasFree(s) then Slots(s.inUse, s.pte[FirstFree(s.inUse) := ZERO_PTE]) else s
  }

  lemma SettledTwice(s: Slots)
    requires s.Whole()
    ensures Settled(Settled(s)) == Settled(s) && (HasFree(Settled(s)) <==> HasFree(s))
    ensures forall k :: 0 <= k < MAX_MAPPING_SLOTS && s.inUse[k] ==> Settled(s).pte[k] == s.pte[k]
  {}

  class PerCpu {
    const baseVa: seq<bv64>
    const inUse: array<bool>
    const pte: array<bv64>

    ghost predicate Valid() {
      && inUse as object != pte as object
      && |baseVa| == inUse.Length == pte.Length == MAX_MAPPING_SLOTS
      && (forall j, k :: 0 <= j < k < |baseVa| ==> baseVa[j] != baseVa[k])
      && (forall k :: 0 <= k < |baseVa| ==> baseVa[k] != 0)
    }

    ghost function State(): Slots
      reads inUse, pte
    {
      Slots(inUse[..], pte[..])
    }

    /** Takes the first slot that is free. */
    method MmuAcquireMapping() returns (ok: bool, slot: nat)
      requires Valid()
      modifies inUse
      ensures ok == HasFree(old(State()))
      ensures ok ==> slot == FirstFree(old(inUse[..])) && inUse[..] == old(inUse[..])[slot := true]
      ensures !ok ==> inUse[..] == old(inUse[..])
    {
      ok, slot := false, 0;
      while slot < MAX_MAPPING_SLOTS
        invariant slot <= MAX_MAPPING_SLOTS
        invariant inUse[..] == old(inUse[..])
        invariant forall j :: 0 <= j < slot ==> inUse[j]
      {
        if !inUse[slot] {
          FirstFreeIs(inUse[..], slot);
          inUse[slot] := true;
          return true, slot;
        }
        slot := slot + 1;
      }
      FirstFreeIs(inUse[..], slot);
    }

    /** The slot in use for a virtual address. */
    method MmuGetMappingForVa(va: bv64) returns (found: bool, slot: nat)
      requires Valid()
      ensures found ==> slot < MAX_MAPPING_SLOTS && inUse[slot] && baseVa[slot] == va
      ensures !found ==> forall k :: 0 <= k < MAX_MAPPING_SLOTS && inUse[k] ==> baseVa[k] != va
    {
      found, slot := false, 0;
      while slot < MAX_MAPPING_SLOTS
        invariant slot <= MAX_MAPPING_SLOTS
        invariant forall k :: 0 <= k < slot && inUse[k] ==> baseVa[k] != va
      {
        if inUse[slot] && baseVa[slot] == va { return true, slot; }
        slot := slot + 1;
      }
    }

    method MmuMapIoPage(physical: bv64, uncached: bool) returns (va: bv64)
      requires Valid()
      modifies inUse, pte
      ensures if HasFree(old(State())) then
                && va == baseVa[FirstFree(old(inUse[..]))]
                && State() == Taken(old(State()), CreatePte(physical, Contents(uncached)))
              else va == 0 && State() == old(State())
    {
      var tempPte := DEFAULT_PTE;
      var ok, slot := MmuAcquireMapping();
      if ok {
        if uncached { tempPte := tempPte | PAGE_CACHE_UC; }
        tempPte := CreatePte(physical, tempPte);
        pte[slot] := tempPte;
        assert pte[..] == old(pte[..])[slot := tempPte];
        return baseVa[slot];
      }
      return 0;
    }

    method MmuUnmapIoPage(va: bv64)
      requires Valid()
      modifies inUse, pte
      ensures forall k :: 0 <= k < MAX_MAPPING_SLOTS && old(inUse[k]) && baseVa[k] == va ==>
                State() == Slots(old(inUse[..])[k := false], old(pte[..])[k := ZERO_PTE])
      ensures (forall k :: 0 <= k < MAX_MAPPING_SLOTS && old(inUse[k]) ==> baseVa[k] != va) ==> State() == old(State())
    {
      var found, slot := MmuGetMappingForVa(va);
      if found {
        pte[slot] := ZERO_PTE;
        assert pte[..] == old(pte[..])[slot := ZERO_PTE];
        inUse[slot] := false;
        assert inUse[..] == old(inUse[..])[slot := false];
      }
    }

    /** The physical page a mapped virtual page stands for. */
    function Through(va: bv64): bv64
      requires Valid() && va in baseVa
      reads pte
    {
      FrameOf(pte[IndexOf(baseVa, va)])
    }

    /** The slot of va has been taken from the given state. */
    ghost predicate MappedFrom(va: bv64, before: Slots, entry: bv64)
      reads inUse, pte
      requires Valid()
    {
      && before.Whole() && HasFree(before) && State() == Taken(before, entry)
      && va == baseVa[FirstFree(before.inUse)]
      && va in baseVa
    }

    /** MmuUnmapIoPage of the page mapped last. */
    method Return(va: bv64, ghost before: Slots, ghost entry: bv64)
      requires Valid() && MappedFrom(va, before, entry)
      modifies inUse, pte
      ensures State() == Settled(before)
    {
      ghost var k := FirstFree(before.inUse);
      assert inUse[..][k] && pte[..] == before.pte[k := entry];
      MmuUnmapIoPage(va);
      assert before.inUse[k := true][k := false] == before.inUse;
      assert before.pte[k := entry][k := ZERO_PTE] == before.pte[k := ZERO_PTE];
    }

    /** Walks the tables of the process with the given CR3, or asks the operating system for
        the current one.  A walk needs one free slot. */
    method MmuGetPhysicalAddress(mem: Memory, os: Pages, currentCr3: bv64, targetCr3: bv64, va: bv64) returns (pa: bv64)
      requires Valid()
      modifies inUse, pte
      ensures State() == if IsCurrent(currentCr3, targetCr3) then old(State()) else Settled(old(State()))
      ensures pa == if IsCurrent(currentCr3, targetCr3) || HasFree(old(State()))
                    then OrZero(Reached(mem, os, currentCr3, targetCr3, va)) else 0
    {
      hide Table, Translate, PageOf, OffsetOf, FrameOf, CreatePte, Word, EntryIn, Present, LargePage, Pti, FirstFree, Join;
      var root := PageOf(targetCr3);
      if root == 0 || root == PageOf(currentCr3) { return OsPhysical(os, va); }
      pa := 0;
      var current := root;
      var level := 4;
      ghost var first := State();
      RootTable(mem, targetCr3, va);
      while level > 0
        invariant 0 <= level <= 4
        invariant State() == if level == 4 then first else Settled(first)
        invariant level < 4 ==> HasFree(first)
        invariant level > 0 ==> pa == 0 && Table(mem, targetCr3, level, va) == Some(FrameOf(current))
        invariant level == 0 ==> Some(pa) == Translate(mem, targetCr3, va)
      {
        ghost var before := State();
        SettledTwice(first);
        var pageTable := MmuMapIoPage(current, true);
        if pageTable == 0 {
          assert !HasFree(first);
          break;
        }
        ThroughTaken(this, before, CreatePte(current, Contents(true)), pageTable);
        CreatedFrame(current, true);
        var entry := Word(mem, EntryIn(Through(pageTable), Pti(level, va)));
        Return(pageTable, before, CreatePte(current, Contents(true)));
        assert entry == Word(mem, EntryAt(FrameOf(current), level, va));
        WalkDown(mem, targetCr3, level, va, FrameOf(current));
        if !Present(entry) {
          break;
        }
        if level != 1 && LargePage(entry) {
          break;
        }
        if level == 1 {
          pa := Join(PageOf(entry), OffsetOf(va));
        } else {
          current := PageOf(entry);
        }
        level := level - 1;
      }
    }
  }

  lemma {:induction false} FirstFreeIs(inUse: seq<bool>, k: nat)
    requires k <= |inUse| && (k < |inUse| ==> !inUse[k])
    requires forall j :: 0 <= j < k ==> inUse[j]
    ensures FirstFree(inUse) == k
  {
    if k > 0 { FirstFreeIs(inUse[1..], k - 1); }
  }

  /** What MmuMapIoPage puts beside the page's frame number. */
  function Contents(uncached: bool): bv64 { if uncached then DEFAULT_PTE | PAGE_CACHE_UC else DEFAULT_PTE }

  function IndexOf(s: seq<bv64>, x: bv64): (k: nat)
    requires x in s
    ensures k < |s| && s[k] == x
  {
    if s[0] == x then 0 else 1 + IndexOf(s[1..], x)
  }

  lemma ThroughTaken(m: PerCpu, before: Slots, entry: bv64, va: bv64)
    requires m.Valid() && before.Whole() && HasFree(before) && m.State() == Taken(before, entry)
    requires va == m.baseVa[FirstFree(before.inUse)]
    ensures va in m.baseVa && m.Through(va) == FrameOf(entry)
  {
    var k := FirstFree(before.inUse);
    assert m.pte[..] == before.pte[k := entry];
    assert m.baseVa[k] == va;
    assert IndexOf(m.baseVa, va) == k;
  }

  /** The entry written maps the page asked for, and is present. */
  lemma CreatedFrame(physical: bv64, uncached: bool)
    ensures FrameOf(CreatePte(physical, Contents(uncached))) == FrameOf(physical)
    ensures Present(CreatePte(physical, Contents(uncached)))
  {}

  // ------------------------------------------------------------------- translations

  /** How the operating system maps the pages of the current process. */
  type Pages = bv64 -> Option<bv64>

  function OsReached(os: Pages, va: bv64): Option<bv64> {
    match os(PageOf(va)) case None => None case Some(frame) => Some(Join(PageOf(frame), OffsetOf(va)))
  }

  function OsPhysical(os: Pages, va: bv64): bv64 { OrZero(OsReached(os, va)) }

  predicate IsCurrent(currentCr3: bv64, targetCr3: bv64) {
    PageOf(targetCr3) == 0 || PageOf(targetCr3) == PageOf(currentCr3)
  }

  /** Where an address of the target process is in physical memory. */
  function Reached(mem: Memory, os: Pages, currentCr3: bv64, targetCr3: bv64, va: bv64): Option<bv64> {
    if IsCurrent(currentCr3, targetCr3) then OsReached(os, va) else Translate(mem, targetCr3, va)
  }

  /** What one level of the walk decides. */
  lemma WalkDown(mem: Memory, root: bv64, level: nat, va: bv64, table: bv64)
    requires 1 <= level <= 4 && Table(mem, root, level, va) == Some(table)
    ensures var entry := Word(mem, EntryAt(table, level, va));
            if level == 1 then Translate(mem, root, va) == (if Present(entry) then Some(Join(PageOf(entry), OffsetOf(va))) else None)
            else if Present(entry) && !LargePage(entry) then Table(mem, root, level - 1, va) == Some(FrameOf(PageOf(entry)))
            else Translate(mem, root, va) == None
  {
    hide Word, EntryAt, Present, LargePage, PageOf, OffsetOf, FrameOf, Join;
    var entry := Word(mem, EntryAt(table, level, va));
    FrameOfPage(entry);
    if level > 1 && (!Present(entry) || LargePage(entry)) { NoTable(mem, root, level - 1, va); }
  }

  lemma {:induction false} NoTable(mem: Memory, root: bv64, level: nat, va: bv64)
    requires 1 <= level <= 4 && Table(mem, root, level, va) == None
    ensures Translate(mem, root, va) == None
  {
    hide Word, EntryAt, Present, LargePage, PageOf, OffsetOf, FrameOf, Join;
    if level > 1 { NoTable(mem, root, level - 1, va); }
  }

  lemma FrameOfPage(entry: bv64)
    ensures FrameOf(PageOf(entry)) == FrameOf(entry)
  {}

  lemma RootTable(mem: Memory, root: bv64, va: bv64)
    ensures Table(mem, root, 4, va) == Some(FrameOf(PageOf(root)))
  {}

  /** A page is reached as a whole: two addresses in it differ by their offset only. */
  lemma SamePageReached(mem: Memory, os: Pages, currentCr3: bv64, targetCr3: bv64, va: bv64, vb: bv64)
    requires PageOf(va) == PageOf(vb)
    ensures var a, b := Reached(mem, os, currentCr3, targetCr3, va), Reached(mem, os, currentCr3, targetCr3, vb);
            && a.Some? == b.Some?
            && (a.Some? ==> b.value == Join(PageOf(a.value), OffsetOf(vb)) && OffsetOf(a.value) == OffsetOf(va))
  {
    hide Word, PageOf, OffsetOf, Join, Translate, IsCurrent;
    if IsCurrent(currentCr3, targetCr3) {
      if OsReached(os, va).Some? { PageAndOffset(os(PageOf(va)).value, va); }
    } else {
      SamePage(mem, targetCr3, va, vb);
      SamePage(mem, targetCr3, vb, va);
      if Translate(mem, targetCr3, va).Some? {
        Rejoined(Translate(mem, targetCr3, vb).value);
      }
    }
  }

  lemma Rejoined(x: bv64)
    ensures x == Join(PageOf(x), OffsetOf(x))
  {}

  /** Which entry MmuMapIoPage writes: present and writable, the caching bits 3 and 4 set
      exactly for an uncached mapping, accessed, dirty, no other flag, and the page's frame. */
  lemma EntryWritten(physical: bv64, uncached: bool)
    ensures CreatePte(physical, Contents(uncached)) ==
            physical / 4096 % 0x100_0000_0000 * 4096 + 0x63 + if uncached then 0x18 else 0
  {}

  /** The current address space is meant by CR3 0 and by the CR3 in force, low bits aside. */
  lemma CurrentExactly(currentCr3: bv64, targetCr3: bv64)
    ensures IsCurrent(currentCr3, targetCr3) <==>
            PageNumber(targetCr3) == 0 || PageNumber(targetCr3) == PageNumber(currentCr3)
  {
    hide PageOf, PageNumber, PageStart;
    NumberOfPage(currentCr3);
    NumberOfPage(targetCr3);
    ZeroPage();
  }

  function PageNumber(x: bv64): bv64 { x / 4096 }

  function PageStart(n: bv64): bv64 { n * 4096 }

  lemma NumberOfPage(x: bv64)
    ensures PageOf(x) == PageStart(PageNumber(x)) && PageNumber(x) == PageNumber(PageOf(x))
  {}

  lemma ZeroPage()
    ensures PageStart(0) == 0 && PageNumber(0) == 0
  {}

  /** After a slot was taken and given back it is free and its entry zero. */
  lemma SettledExactly(s: Slots, k: nat)
    requires s.Whole() && k < 4
    ensures Settled(s).inUse[k] == s.inUse[k]
    ensures Settled(s).pte[k] == if !s.inUse[k] && (forall j :: 0 <= j < k ==> s.inUse[j]) then 0 else s.pte[k]
  {
    if !s.inUse[k] && (forall j :: 0 <= j < k ==> s.inUse[j]) { FirstFreeIs(s.inUse, k); }
  }
}
