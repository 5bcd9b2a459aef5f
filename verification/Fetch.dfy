/** The guest-instruction fetch of src/exits.c: up to three bytes at an address of another
    address space, read page by page through one borrowed slot. */
module Fetch {
  import opened Mmu
  import opened Mapper

  const TSC_INS_LENGTH := 2
  const TSCP_INS_LENGTH := 3

  datatype Status = STATUS_SUCCESS | STATUS_NO_MEMORY

  /** The n-th address after another. */
  function Plus(x: bv64, n: nat): (r: bv64)
    requires n <= 3
    ensures n == 0 ==> r == x
  {
    match n case 0 => x case 1 => x + 1 case 2 => x + 2 case _ => x + 3
  }

  /** The address space read from: physical memory, the operating system's mapping of the
      current process, and the two CR3 values. */
  datatype Space = Space(mem: Memory, os: Pages, currentCr3: bv64, cr3: bv64) {
    function At(va: bv64): Option<bv64> { Reached(mem, os, currentCr3, cr3, va) }

    /** The byte at an address, if it is mapped. */
    function Peek(va: bv64): Option<bv8> {
      match At(va) case None => None case Some(pa) => Some(mem(Physical(pa)))
    }

    /** Translation result 0 is taken for a failure, even of an address that is mapped there. */
    predicate Starts(va: bv64) { At(va).Some? && At(va).value != 0 }

    /** How many bytes of an instruction at va can be read, one address after the other. */
    function Readable(va: bv64): (n: nat)
      ensures n <= 3
    {
      if !Starts(va) then 0 else if Peek(Plus(va, 1)).None? then 1 else if Peek(Plus(va, 2)).None? then 2 else 3
    }
  }

  class GuestInstruction {
    const opcode: array<bv8>
    var length: nat

    ghost predicate Valid() { opcode.Length == TSCP_INS_LENGTH }
  }

  // ------------------------------------------------------------------- page crossings

  /** The last byte of a page, and the one before it. */
  predicate IsLast(va: bv64) { OffsetOf(va) == 0xFFF }

  predicate IsNextToLast(va: bv64) { OffsetOf(va) == 0xFFE }

  /** The pages a three-byte instruction touches. */
  function PagesSpanned(va: bv64): bv64 { (OffsetOf(va) + 3 + OFFSET_MASK) >> 12 }

  lemma OnePage(va: bv64)
    ensures PagesSpanned(va) == 1 <==> !IsLast(va) && !IsNextToLast(va)
  {
    var o := OffsetOf(va);
    assert o <= 0xFFF;
    Rounded(o);
  }

  lemma Rounded(o: bv64)
    requires o <= 0xFFF
    ensures (o + 3 + 0xFFF) >> 12 == 1 <==> o != 0xFFF && o != 0xFFE
  {}

  lemma OneOn(va: bv64)
    requires !IsLast(va)
    ensures PageOf(Plus(va, 1)) == PageOf(va) && OffsetOf(Plus(va, 1)) == Plus(OffsetOf(va), 1)
  {}

  lemma TwoOn(va: bv64)
    requires !IsLast(va) && !IsNextToLast(va)
    ensures PageOf(Plus(va, 2)) == PageOf(va) && OffsetOf(Plus(va, 2)) == Plus(OffsetOf(va), 2)
  {}

  /** The first byte of the next page. */
  lemma AfterLast(va: bv64)
    requires IsLast(va)
    ensures OffsetOf(Plus(va, 1)) == 0
  {}

  lemma OffsetWraps(va: bv64)
    ensures OffsetOf(Plus(va, 2)) == OffsetOf(Plus(OffsetOf(va), 2))
  {}

  lemma PlusPlus(x: bv64)
    ensures Plus(Plus(x, 1), 1) == Plus(x, 2) && Plus(Plus(x, 1), 2) == Plus(x, 3) && Plus(Plus(x, 2), 1) == Plus(x, 3)
  {
    OneOne(x);
    OneTwo(x);
    TwoOne(x);
    hide *;
  }

  lemma OneOne(x: bv64)
    ensures Plus(Plus(x, 1), 1) == Plus(x, 2)
  {
    assert x + 1 + 1 == x + 2;
  }

  lemma OneTwo(x: bv64)
    ensures Plus(Plus(x, 1), 2) == Plus(x, 3)
  {
    assert x + 1 + 2 == x + 3;
  }

  lemma TwoOne(x: bv64)
    ensures Plus(Plus(x, 2), 1) == Plus(x, 3)
  {
    assert x + 2 + 1 == x + 3;
  }

  lemma FirstInPage(va: bv64)
    requires OffsetOf(va) == 0
    ensures !IsLast(va) && !IsNextToLast(va) && Plus(OffsetOf(va), 1) != 0 && Plus(OffsetOf(va), 2) != 0
  {}

  lemma BeforeLast(va: bv64)
    requires IsNextToLast(va)
    ensures !IsLast(va) && IsLast(Plus(va, 1))
  {}

  /** The bytes past the end of a page are all in the page of the address three bytes on. */
  lemma NextPage(va: bv64)
    requires IsLast(va) || IsNextToLast(va)
    ensures PageOf(Plus(va, 2)) == PageOf(Plus(va, 3)) && OffsetOf(Plus(va, 3)) != 0
    ensures IsLast(va) ==> PageOf(Plus(va, 1)) == PageOf(Plus(va, 3))
  {
    hide *;
    PlusPlus(va);
    if IsLast(va) {
      AfterLast(va);
      FirstInPage(Plus(va, 1));
      OneOn(Plus(va, 1));
      TwoOn(Plus(va, 1));
    } else {
      BeforeLast(va);
      AfterLast(Plus(va, 1));
      FirstInPage(Plus(va, 2));
      OneOn(Plus(va, 2));
    }
  }

  // ------------------------------------------------------------------- reading a page

  /** What lies behind a mapped page is the page of the address translated. */
  lemma ThroughPage(pa: bv64, va: bv64)
    ensures Join(FrameOf(pa), OffsetOf(va)) == Physical(Join(PageOf(pa), OffsetOf(va)))
  {}

  lemma JoinNonZero(page: bv64, offset: bv64)
    requires offset != 0
    ensures Join(page, offset) != 0
  {}

  lemma ReachedNonZero(s: Space, va: bv64)
    requires OffsetOf(va) != 0
    ensures s.At(va).Some? ==> s.At(va).value != 0
  {
    hide Reached, PageOf, OffsetOf, Join;
    SamePageReached(s.mem, s.os, s.currentCr3, s.cr3, va, va);
    if s.At(va).Some? { JoinNonZero(PageOf(s.At(va).value), OffsetOf(va)); }
  }

  /** A byte read through a slot that maps the page of `at`. */
  lemma ByteThrough(s: Space, at: bv64, va: bv64)
    requires s.At(at).Some? && PageOf(va) == PageOf(at)
    ensures s.Peek(va) == Some(s.mem(Join(FrameOf(s.At(at).value), OffsetOf(va))))
  {
    hide Reached, PageOf, OffsetOf, Join, FrameOf, Physical;
    SamePageReached(s.mem, s.os, s.currentCr3, s.cr3, at, va);
    ThroughPage(s.At(at).value, va);
  }

  /** What the fetch leaves in the buffer: the n bytes read, and the rest as it was. */
  ghost predicate Filled(s: Space, va: bv64, n: nat, was: seq<bv8>, now: seq<bv8>)
    requires n <= TSCP_INS_LENGTH == |was| == |now|
  {
    && (forall i :: 0 <= i < n ==> s.Peek(Plus(va, i)) == Some(now[i]))
    && (forall i :: n <= i < TSCP_INS_LENGTH ==> now[i] == was[i])
  }

  /** Maps the page of an address: 0 when the address has no translation (or translation 0) or
      no slot is free. */
  method MapCode(m: PerCpu, s: Space, at: bv64) returns (codePage: bv64, ghost before: Slots, ghost entry: bv64)
    requires m.Valid()
    modifies m.inUse, m.pte
    ensures codePage != 0 <==> HasFree(old(m.State())) && s.Starts(at)
    ensures before == old(m.State()) || before == Settled(old(m.State()))
    ensures if codePage == 0 then m.State() == before else m.MappedFrom(codePage, before, entry)
    ensures codePage != 0 ==> codePage in m.baseVa && m.Through(codePage) == FrameOf(s.At(at).value)
  {
    hide FrameOf, Reached, CreatePte, IsCurrent, FirstFree, Taken;
    entry := 0;
    var codePa := m.MmuGetPhysicalAddress(s.mem, s.os, s.currentCr3, s.cr3, at);
    before := m.State();
    SettledTwice(old(m.State()));
    if codePa == 0 { return 0, before, entry; }
    codePage := m.MmuMapIoPage(codePa, false);
    entry := CreatePte(codePa, Contents(false));
    if codePage != 0 {
      CreatedFrame(codePa, false);
      ThroughTaken(m, before, entry, codePage);
    }
  }

  /** How many bytes of an instruction are in its first page. */
  function InPage(va: bv64): nat { if IsLast(va) then 1 else if IsNextToLast(va) then 2 else 3 }

  /** The bytes of an instruction in its first page, read through codePage. */
  method ReadFirst(m: PerCpu, s: Space, va: bv64, ins: GuestInstruction, codePage: bv64) returns (length: nat)
    requires m.Valid() && ins.Valid() && ins.opcode as object != m.pte && ins.opcode as object != m.inUse
    requires s.Starts(va) && codePage in m.baseVa && m.Through(codePage) == FrameOf(s.At(va).value)
    modifies ins.opcode
    ensures length == InPage(va) <= s.Readable(va)
    ensures Filled(s, va, length, old(ins.opcode[..]), ins.opcode[..])
  {
    hide PagesSpanned, Plus, IsLast, IsNextToLast, PageOf, OffsetOf, Join, FrameOf, Space.At, Space.Peek, PerCpu.Through;
    var pageCount := PagesSpanned(va);
    var byteOffset := OffsetOf(va);
    OnePage(va);
    ByteThrough(s, va, va);
    ins.opcode[0] := s.mem(Join(m.Through(codePage), byteOffset));
    length := 1;
    if IsLast(va) { return; }
    OneOn(va);
    ByteThrough(s, va, Plus(va, 1));
    ins.opcode[1] := s.mem(Join(m.Through(codePage), Plus(byteOffset, 1)));
    length := 2;
    if pageCount == 1 {
      TwoOn(va);
      ByteThrough(s, va, Plus(va, 2));
      ins.opcode[2] := s.mem(Join(m.Through(codePage), Plus(byteOffset, 2)));
      length := 3;
    }
  }

  /** Where the bytes past the page boundary are, and when they can be read. */
  lemma SecondPage(s: Space, va: bv64)
    requires IsLast(va) || IsNextToLast(va)
    ensures var at := Plus(va, 3);
            if s.Starts(at) then
              && s.Peek(Plus(va, 2)) == Some(s.mem(Join(FrameOf(s.At(at).value), OffsetOf(Plus(OffsetOf(va), 2)))))
              && (IsLast(va) ==> s.Peek(Plus(va, 1)) == Some(s.mem(Join(FrameOf(s.At(at).value), 0))))
            else s.Peek(Plus(va, 2)) == None && (IsLast(va) ==> s.Peek(Plus(va, 1)) == None)
  {
    hide Plus, IsLast, IsNextToLast, PageOf, OffsetOf, Join, FrameOf, Reached, Physical;
    var at := Plus(va, 3);
    NextPage(va);
    ReachedNonZero(s, at);
    OffsetWraps(va);
    if IsLast(va) { AfterLast(va); }
    if s.At(at).Some? {
      ByteThrough(s, at, Plus(va, 2));
      if IsLast(va) { ByteThrough(s, at, Plus(va, 1)); }
    } else {
      SamePageReached(s.mem, s.os, s.currentCr3, s.cr3, at, Plus(va, 2));
      if IsLast(va) { SamePageReached(s.mem, s.os, s.currentCr3, s.cr3, at, Plus(va, 1)); }
    }
  }

  /** The bytes of an instruction past the page boundary; the first page has been given back.
      The second page is translated at va + 3. */
  method ReadNext(m: PerCpu, s: Space, va: bv64, ins: GuestInstruction) returns (length: nat)
    requires m.Valid() && ins.Valid() && ins.opcode as object != m.pte && ins.opcode as object != m.inUse
    requires HasFree(m.State()) && InPage(va) < 3 && InPage(va) <= s.Readable(va)
    modifies m.inUse, m.pte, ins.opcode
    ensures length == s.Readable(va)
    ensures forall i :: InPage(va) <= i < length ==> s.Peek(Plus(va, i)) == Some(ins.opcode[i])
    ensures forall i :: 0 <= i < TSCP_INS_LENGTH && !(InPage(va) <= i < length) ==> ins.opcode[i] == old(ins.opcode[i])
    ensures m.State() == old(m.State()) || m.State() == Settled(old(m.State()))
  {
    hide Plus, IsLast, IsNextToLast, PageOf, OffsetOf, Join, FrameOf, Space.At, Space.Peek, Physical, FirstFree, Taken,
      PerCpu.Through, PerCpu.MappedFrom;
    var byteOffset := OffsetOf(va);
    length := InPage(va);
    SettledTwice(m.State());
    SecondPage(s, va);
    var codePage, before, entry := MapCode(m, s, Plus(va, TSCP_INS_LENGTH));
    if codePage == 0 { return; }
    if IsLast(va) {
      ins.opcode[1] := s.mem(Join(m.Through(codePage), 0));
    }
    ins.opcode[2] := s.mem(Join(m.Through(codePage), OffsetOf(Plus(byteOffset, 2))));
    length := 3;
    m.Return(codePage, before, entry);
  }

  /** Reads what one slot allows: with no slot free nothing, else what can be read byte by byte. */
  method VmReadGuestInstruction(m: PerCpu, s: Space, va: bv64, ins: GuestInstruction) returns (status: Status)
    requires m.Valid() && ins.Valid() && ins.opcode as object != m.pte && ins.opcode as object != m.inUse
    modifies m.inUse, m.pte, ins, ins.opcode
    ensures var n := if HasFree(old(m.State())) then s.Readable(va) else 0;
            && (status == STATUS_SUCCESS <==> n >= 2)
            && ins.length == (if n >= 2 then n else old(ins.length))
            && Filled(s, va, n, old(ins.opcode[..]), ins.opcode[..])
    ensures m.State() == old(m.State()) || m.State() == Settled(old(m.State()))
  {
    hide Plus, Space.At, Space.Peek, FirstFree, Taken, FrameOf, InPage, Space.Starts, PerCpu.Through, PerCpu.MappedFrom;
    status := STATUS_NO_MEMORY;
    SettledTwice(m.State());
    var codePage, before, entry := MapCode(m, s, va);
    if codePage == 0 { return; }
    var length := ReadFirst(m, s, va, ins, codePage);
    m.Return(codePage, before, entry);
    if length < TSCP_INS_LENGTH {
      length := ReadNext(m, s, va, ins);
    }
    if length >= TSC_INS_LENGTH {
      status := STATUS_SUCCESS;
      ins.length := length;
    }
  }

  /** When the fetch yields two bytes only, and when it fails although the first can be read. */
  lemma ShortFetch(s: Space, va: bv64)
    requires s.Starts(va)
    ensures s.Readable(va) == 2 <==> IsNextToLast(va) && !s.Starts(Plus(va, 3))
    ensures s.Readable(va) == 1 <==> IsLast(va) && !s.Starts(Plus(va, 3))
  {
    hide Plus, IsLast, IsNextToLast, PageOf, OffsetOf, Join, FrameOf, Reached, Physical, Space.Peek;
    if IsLast(va) || IsNextToLast(va) {
      SecondPage(s, va);
      LastIsNotNextToLast(va);
      if IsNextToLast(va) {
        OneOn(va);
        ByteThrough(s, va, Plus(va, 1));
      }
    } else {
      OneOn(va);
      TwoOn(va);
      ByteThrough(s, va, Plus(va, 1));
      ByteThrough(s, va, Plus(va, 2));
    }
  }

  lemma LastIsNotNextToLast(va: bv64)
    ensures !(IsLast(va) && IsNextToLast(va))
  {}
}
