/** The RDTSC sibling detector of src/tsc.c.  What the disassembler says about a pair of
    readings is an oracle: each event carries it. */
module Tsc {

  const MAX_TSC_HITS := 100
  const SIBLING_DISTANCE_LIMIT := 0xFF
  const MAX_DIFFERENCE := 0x50000

  const TWO31 := 0x8000_0000
  const TWO32 := 0x1_0000_0000
  const TWO64 := 0x1_0000_0000_0000_0000

  type U64 = x: int | 0 <= x < TWO64
  type U32 = x: int | 0 <= x < TWO32

  function Sub64(a: U64, b: U64): U64 { (a - b) % TWO64 }

  /** The cast (int) of an unsigned number: its low 32 bits, signed. */
  function ToInt(x: U64): int {
    var low := x % TWO32;
    if low < TWO31 then low else low - TWO32
  }

  /** abs() on a 32-bit int: the least one has no positive counterpart and stays as it is. */
  function AbsInt(i: int): int { if i == -TWO31 then i else if i < 0 then -i else i }

  /** abs((int)(a - b)) as a UINT64. */
  function Gap(a: U64, b: U64): U64 { AbsInt(ToInt(Sub64(a, b))) % TWO64 }

  /** ARE_VAS_WITHIN_SIBLING_RANGE. */
  predicate Near(a: U64, b: U64) { AbsInt(ToInt(Sub64(a, b))) < SIBLING_DISTANCE_LIMIT }

  datatype Hit = Hit(address: U64, time: U64, count: U64)

  datatype Entry = Entry(before: Hit, after: Hit, skips: U32, difference: U64, hash: U64) {
    predicate Free() { before.address == 0 }
    predicate Orphan() { after.address == 0 || before.address == 0 }
    predicate Paired() { !Orphan() }
  }

  const NO_HIT := Hit(0, 0, 0)
  const CLEARED := Entry(NO_HIT, NO_HIT, 0, 0, 0)

  datatype Event = Event(hash: U64, address: U64, time: U64, attack: bool)

  // ------------------------------------------------------------------- one entry

  predicate Matches(e: Entry, hash: U64, address: U64) {
    && hash == e.hash && Near(e.before.address, address)
    && (e.before.address == address || e.after.address == address || e.after.address == 0)
  }

  function Bumped(h: Hit, time: U64): Hit { Hit(h.address, time, (h.count + 1) % TWO64) }

  /** The running average after an After reading at the given distance from its Before. */
  function Averaged(e: Entry, d: U64): Entry {
    if e.difference == 0 then e.(difference := d)
    else if d > e.difference && Gap(d, e.difference) > (e.difference * 3) % TWO64 / 2 then e.(skips := (e.skips + 1) % TWO32)
    else e.(difference := (e.difference + d) % TWO64 / 2)
  }

  /** A reading recorded as the Before, or as the After with its average. */
  function HitBefore(e: Entry, time: U64): Entry { e.(before := Bumped(e.before, time)) }

  function HitAfter(e: Entry, time: U64): Entry {
    var a := Averaged(e, Gap(time, e.before.time));
    a.(after := Bumped(a.after, time))
  }

  /** TdUpdateSibling: the lower address of a pair is its Before. */
  function Updated(e: Entry, address: U64, time: U64): Entry {
    if e.before.address == address then
      HitBefore(if e.after.address == address then Averaged(e, Gap(time, e.before.time)) else e, time)
    else if e.after.address == address then HitAfter(e, time)
    else if e.before.address > address then HitBefore(e.(after := e.before, before := Hit(address, 0, 0)), time)
    else HitAfter(e.(after := e.after.(address := address)), time)
  }

  predicate CountOk(e: Entry) { e.before.count > 255 }

  predicate SyncOk(e: Entry) { AbsInt(ToInt(Sub64(e.before.count, e.after.count))) < 2 }

  predicate SkipsOk(e: Entry) { e.skips < (if e.before.count / 20 > 1 then e.before.count / 20 else 1) }

  predicate Candidate(e: Entry) {
    && e.difference != 0 && e.Paired() && e.difference <= MAX_DIFFERENCE
    && CountOk(e) && SyncOk(e) && SkipsOk(e)
  }

  /** The assessment of the entry is over without a report. */
  predicate Dropped(e: Entry) {
    && e.difference != 0 && e.Paired() && !Candidate(e)
    && (e.difference > MAX_DIFFERENCE || CountOk(e))
  }

  /** What an event leaves of the entry it touched: a report clears it too. */
  function Left(e: Entry): Entry { if Candidate(e) || Dropped(e) then CLEARED else e }

  // ------------------------------------------------------------------- the table

  type Table = t: seq<Entry> | |t| == MAX_TSC_HITS witness seq(MAX_TSC_HITS, _ => CLEARED)

  /** Index of the first of the entries from i on that matches, or their number. */
  function FindFrom(t: seq<Entry>, hash: U64, address: U64, i: nat): (k: nat)
    requires i <= |t|
    ensures i <= k <= |t| && (k < |t| ==> Matches(t[k], hash, address))
    ensures forall j :: i <= j < k ==> !Matches(t[j], hash, address)
    decreases |t| - i
  {
    if i == |t| || Matches(t[i], hash, address) then i else FindFrom(t, hash, address, i + 1)
  }

  function FirstFree(t: seq<Entry>, i: nat): (k: nat)
    requires i <= |t|
    ensures i <= k <= |t| && (k < |t| ==> t[k].Free())
    ensures forall j :: i <= j < k ==> !t[j].Free()
    decreases |t| - i
  {
    if i == |t| || t[i].Free() then i else FirstFree(t, i + 1)
  }

  /** Index of the oldest of the first n entries that are orphans (or that are pairs), the first
      one of equals; |t| if there is none. */
  function Oldest(t: seq<Entry>, orphans: bool, n: nat): (k: nat)
    requires n <= |t|
    ensures k < n || k == |t|
  {
    if n == 0 then |t| else
      var k := Oldest(t, orphans, n - 1);
      if t[n - 1].Orphan() == orphans && (k == |t| || t[n - 1].before.time < t[k].before.time) then n - 1 else k
  }

  /** It is there if there is one of the kind, no other of the kind is older, and of those as
      old it is the first. */
  lemma {:induction false} OldestIs(t: seq<Entry>, orphans: bool, n: nat)
    requires n <= |t|
    ensures var k := Oldest(t, orphans, n);
            && (k == |t| <==> forall j :: 0 <= j < n ==> t[j].Orphan() != orphans)
            && (k < |t| ==> t[k].Orphan() == orphans)
            && (k < |t| ==> forall j :: 0 <= j < n && t[j].Orphan() == orphans ==>
                  t[k].before.time <= t[j].before.time && (j < k ==> t[k].before.time < t[j].before.time))
  {
    if n > 0 { OldestIs(t, orphans, n - 1); }
  }

  /** The slot for a new entry: a free one, else the oldest orphan, else the oldest pair. */
  function SlotFor(t: Table): (k: nat)
    ensures k < |t|
  {
    if FirstFree(t, 0) < |t| then FirstFree(t, 0)
    else if Oldest(t, true, |t|) < |t| then Oldest(t, true, |t|)
    else
      OldestIs(t, true, |t|);
      OldestIs(t, false, |t|);
      assert t[0].Orphan() == false;
      Oldest(t, false, |t|)
  }

  /** A new entry; what a free slot holds apart from its Before stays. */
  function NewEntry(was: Entry, ev: Event): Entry {
    (if was.Free() then was else CLEARED).(hash := ev.hash, before := Hit(ev.address, ev.time, 1))
  }

  /** The entry an event touches, and what it becomes before it is judged. */
  function Touched(t: Table, ev: Event): (k: nat)
    ensures k < |t|
  {
    var found := FindFrom(t, ev.hash, ev.address, 0);
    if found < |t| then found else SlotFor(t)
  }

  function Reading(t: Table, ev: Event): Entry {
    var found := FindFrom(t, ev.hash, ev.address, 0);
    if found < |t| then Updated(t[found], ev.address, ev.time) else NewEntry(t[SlotFor(t)], ev)
  }

  predicate Reported(t: Table, ev: Event) { Candidate(Reading(t, ev)) }

  function Step(t: Table, ev: Event): Table { t[Touched(t, ev) := Left(Reading(t, ev))] }

  ghost function Run(t: Table, evs: seq<Event>): Table {
    if evs == [] then t else Step(Run(t, evs[..|evs| - 1]), evs[|evs| - 1])
  }

  const EMPTY: Table := seq(MAX_TSC_HITS, _ => CLEARED)

  // ------------------------------------------------------------------- the code

  class Detector {
    const head: array<Entry>

    ghost predicate Valid() { head.Length == MAX_TSC_HITS }

    constructor ()
      ensures Valid() && fresh(head) && head[..] == EMPTY && head.Length == 100
    {
      head := new Entry[MAX_TSC_HITS](_ => CLEARED);
    }

    method TdClearSibling(i: nat)
      requires i < head.Length
      modifies head
      ensures head[..] == old(head[..])[i := CLEARED]
    {
      head[i] := CLEARED;
    }

    /** First free slot, or the oldest entry cleared; pairs go last. */
    method TdGetSiblingSlot() returns (slot: nat)
      requires Valid()
      modifies head
      ensures slot == SlotFor(old(head[..]))
      ensures head[..] == if old(head[..])[slot].Free() then old(head[..]) else old(head[..])[slot := CLEARED]
    {
      var orphanOldest, siblingOldest := MAX_TSC_HITS, MAX_TSC_HITS;
      ghost var t: Table := head[..];
      var i := 0;
      while i < MAX_TSC_HITS
        invariant 0 <= i <= MAX_TSC_HITS && head[..] == t
        invariant FirstFree(t, 0) == FirstFree(t, i)
        invariant orphanOldest == Oldest(t, true, i)
        invariant siblingOldest == Oldest(t, false, i)
      {
        assert head[i] == t[i];
        if head[i].before.address == 0 { return i; }
        if !head[i].Orphan() {
          if siblingOldest == MAX_TSC_HITS { siblingOldest := i; }
          if head[i].before.time < head[siblingOldest].before.time { siblingOldest := i; }
        } else {
          if orphanOldest == MAX_TSC_HITS { orphanOldest := i; }
          if head[i].before.time < head[orphanOldest].before.time { orphanOldest := i; }
        }
        i := i + 1;
      }
      slot := if orphanOldest < MAX_TSC_HITS then orphanOldest else siblingOldest;
      TdClearSibling(slot);
    }

    method TdFindSibling(hash: U64, address: U64) returns (found: nat)
      requires Valid()
      ensures found == FindFrom(head[..], hash, address, 0)
    {
      found := 0;
      while found < MAX_TSC_HITS
        invariant 0 <= found <= MAX_TSC_HITS
        invariant FindFrom(head[..], hash, address, 0) == FindFrom(head[..], hash, address, found)
      {
        var entry := head[found];
        if hash == entry.hash && Near(entry.before.address, address) {
          if entry.before.address == address || entry.after.address == address || entry.after.address == 0 { return; }
        }
        found := found + 1;
      }
    }

    /** The average of an entry whose After is hit. */
    method UpdateDifference(i: nat, time: U64)
      requires i < head.Length
      modifies head
      ensures head[..] == old(head[..])[i := Averaged(old(head[i]), Gap(time, old(head[i].before.time)))]
    {
      var difference := Gap(time, head[i].before.time);
      if head[i].difference == 0 {
        head[i] := head[i].(difference := difference);
      } else {
        var current := Gap(difference, head[i].difference);
        var threshold := (head[i].difference * 3) % TWO64 / 2;
        if difference > head[i].difference && current > threshold {
          head[i] := head[i].(skips := (head[i].skips + 1) % TWO32);
        } else {
          head[i] := head[i].(difference := (head[i].difference + difference) % TWO64);
          head[i] := head[i].(difference := head[i].difference / 2);
        }
      }
    }

    /** TdFindSibling has chosen entry i for the address. */
    method TdUpdateSibling(i: nat, address: U64, time: U64)
      requires i < head.Length && Matches(head[i], head[i].hash, address)
      modifies head
      ensures head[..] == old(head[..])[i := Updated(old(head[i]), address, time)]
    {
      var isBefore := true;
      if head[i].before.address == address {
      } else if head[i].after.address == address {
        isBefore := false;
      } else if head[i].before.address > address {
        head[i] := head[i].(after := head[i].before);
        head[i] := head[i].(before := head[i].before.(address := address));
        head[i] := head[i].(before := head[i].before.(count := 0));
        head[i] := head[i].(before := head[i].before.(time := 0));
      } else {
        head[i] := head[i].(after := head[i].after.(address := address));
        isBefore := false;
      }
      var hit := if isBefore then head[i].before.address else head[i].after.address;
      if hit == head[i].after.address { UpdateDifference(i, time); }
      if isBefore {
        head[i] := head[i].(before := Bumped(head[i].before, time));
      } else {
        head[i] := head[i].(after := Bumped(head[i].after, time));
      }
    }

    /** Judges entry i; an assessment that failed clears it. */
    method TdIsTimingCandidate(i: nat) returns (candidate: bool)
      requires i < head.Length
      modifies head
      ensures candidate == Candidate(old(head[i]))
      ensures head[..] == if Dropped(old(head[i])) then old(head[..])[i := CLEARED] else old(head[..])
    {
      if head[i].difference == 0 { return false; }
      if head[i].Orphan() { return false; }
      if head[i].difference > MAX_DIFFERENCE {
        TdClearSibling(i);
        return false;
      }
      var isCountThresholdOk := head[i].before.count > 255;
      var isSyncThresholdOk := AbsInt(ToInt(Sub64(head[i].before.count, head[i].after.count))) < 2;
      var isSkipsThresholdOk := head[i].skips < (if head[i].before.count / 20 > 1 then head[i].before.count / 20 else 1);
      candidate := isSyncThresholdOk && isSkipsThresholdOk && isCountThresholdOk;
      if !candidate && isCountThresholdOk { TdClearSibling(i); }
    }

    method TdCreateSibling(address: U64, hash: U64, time: U64) returns (slot: nat)
      requires Valid()
      modifies head
      ensures slot == SlotFor(old(head[..])) < head.Length
      ensures var was := old(head[..])[slot]; var e := if was.Free() then was else CLEARED;
              head[..] == old(head[..])[slot := e.(hash := hash, before := Hit(address, time, 1))]
    {
      slot := TdGetSiblingSlot();
      head[slot] := head[slot].(hash := hash);
      head[slot] := head[slot].(before := Hit(address, time, 1));
    }

    /** One reading of the time stamp counter.  `reported` tells whether a notification is
        posted, as an attack or as a false positive. */
    method TdProcessTscEvent(ev: Event) returns (isTimingAttack: bool, reported: bool)
      requires Valid()
      modifies head
      ensures head[..] == Step(old(head[..]), ev)
      ensures reported == Reported(old(head[..]), ev) && isTimingAttack == (reported && ev.attack)
    {
      isTimingAttack, reported := false, false;
      ghost var was: Table := head[..];
      var sibling := TdFindSibling(ev.hash, ev.address);
      if sibling < MAX_TSC_HITS {
        TdUpdateSibling(sibling, ev.address, ev.time);
      } else {
        sibling := TdCreateSibling(ev.address, ev.hash, ev.time);
      }
      assert head[..] == was[Touched(was, ev) := Reading(was, ev)];
      reported := TdIsTimingCandidate(sibling);
      if !reported { return false, false; }
      isTimingAttack := ev.attack;
      TdClearSibling(sibling);
    }
  }

  // ------------------------------------------------------------------- what every run keeps

  ghost predicate EntryInv(e: Entry) {
    && (e.Free() ==> e == CLEARED)
    && (e.Orphan() ==> e.after == NO_HIT && e.difference == 0 && e.skips == 0)
    && (e.Paired() ==> e.before.address < e.after.address && Near(e.before.address, e.after.address))
    && (e.Paired() && e.difference != 0 ==> e.before.count <= 255 && e.difference <= MAX_DIFFERENCE)
  }

  ghost predicate TableInv(t: Table) { forall i :: 0 <= i < |t| ==> EntryInv(t[i]) && (t[i].hash == 0 ==> t[i].Free()) }

  /** Readings of a real thread: process and thread ids and the address are not zero. */
  ghost predicate Real(evs: seq<Event>) { forall i :: 0 <= i < |evs| ==> evs[i].hash != 0 && evs[i].address != 0 }

  lemma NearSymmetric(a: U64, b: U64)
    ensures Near(a, b) <==> Near(b, a)
  {
    NearMeans(a, b);
    NearMeans(b, a);
    hide Near;
  }

  /** What holds of a touched entry before it is judged. */
  ghost predicate Shape(e: Entry) {
    && (e.Free() ==> e == CLEARED)
    && (e.Orphan() ==> e.after == NO_HIT && e.difference == 0 && e.skips == 0)
    && (e.Paired() ==> e.before.address < e.after.address && Near(e.before.address, e.after.address))
  }

  lemma UpdatedShape(e: Entry, address: U64, time: U64)
    requires EntryInv(e) && !e.Free() && address != 0 && Matches(e, e.hash, address)
    ensures Shape(Updated(e, address, time)) && !Updated(e, address, time).Free()
    ensures Updated(e, address, time).hash == e.hash
  {
    hide Near, Gap;
    NearSymmetric(e.before.address, address);
  }

  lemma LeftInv(e: Entry)
    requires Shape(e)
    ensures EntryInv(Left(e))
  {}

  lemma ReadingInv(t: Table, ev: Event)
    requires TableInv(t) && ev.hash != 0 && ev.address != 0
    ensures var e := Reading(t, ev); Shape(e) && e.hash == ev.hash
  {
    var found := FindFrom(t, ev.hash, ev.address, 0);
    assert found < |t| ==> t[found].hash == ev.hash;
    hide Matches, Updated, Near;
    if found < |t| {
      assert EntryInv(t[found]);
      UpdatedShape(t[found], ev.address, ev.time);
    } else {
      assert EntryInv(t[SlotFor(t)]);
    }
  }

  /** Every reading keeps the table in order: free slots are all zero, a pair is ordered and
      near, and no pair with an average is over the limits. */
  lemma StepInv(t: Table, ev: Event)
    requires TableInv(t) && ev.hash != 0 && ev.address != 0
    ensures TableInv(Step(t, ev))
  {
    assert EntryInv(CLEARED);
    hide Reading, EntryInv, Shape;
    ReadingInv(t, ev);
    LeftInv(Reading(t, ev));
  }

  lemma {:induction false} RunInv(evs: seq<Event>)
    requires Real(evs)
    ensures TableInv(Run(EMPTY, evs))
  {
    hide Step;
    if evs != [] {
      RunInv(evs[..|evs| - 1]);
      StepInv(Run(EMPTY, evs[..|evs| - 1]), evs[|evs| - 1]);
    }
  }

  // ------------------------------------------------------------------- distances

  function Distance(a: U64, b: U64): nat { if a < b then b - a else a - b }

  /** It looks at the low 32 bits only: in general it means one of these. */
  lemma NearMeans(a: U64, b: U64)
    ensures Near(a, b) <==> var low := Distance(a, b) % TWO32;
              low < 0xFF || low == 0x8000_0000 || low > 0x1_0000_0000 - 0xFF
  {
    if a < b { LowOfNegative(b - a); }
  }

  /** Below 2^31 the range test is exact. */
  lemma NearExactly(a: U64, b: U64)
    requires Distance(a, b) < TWO31
    ensures Near(a, b) <==> Distance(a, b) < 0xFF
  {
    hide Near;
    NearMeans(a, b);
  }

  lemma LowOfNegative(d: nat)
    requires 0 < d < TWO64
    ensures (TWO64 - d) % TWO32 == if d % TWO32 == 0 then 0 else TWO32 - d % TWO32
  {
    var q, r := d / TWO32, d % TWO32;
    assert TWO64 - d == TWO32 * (TWO32 - q) - r;
  }

  /** So readings 4 GB apart are taken for siblings. */
  lemma FarSiblings()
    ensures var e := Run(EMPTY, [Event(1, 0x1000, 5, false), Event(1, 0x1_0000_1000, 9, false)])[0];
            e.Paired() && Distance(e.before.address, e.after.address) == TWO32
  {
    var e0, e1 := Event(1, 0x1000, 5, false), Event(1, 0x1_0000_1000, 9, false);
    assert [e0, e1][..1] == [e0] && [e0][..0] == [];
    assert Run(EMPTY, []) == EMPTY;
    assert Run(EMPTY, [e0]) == Step(EMPTY, e0);
    assert FindFrom(EMPTY, 1, 0x1000, 0) == |EMPTY|;
    assert Step(EMPTY, e0)[0] == Entry(Hit(0x1000, 5, 1), NO_HIT, 0, 0, 1);
    assert FindFrom(Step(EMPTY, e0), 1, 0x1_0000_1000, 0) == 0;
    assert Reading(Step(EMPTY, e0), e1).before.count == 1;
  }

  /** A thread's addresses are within 2 GB of each other. */
  ghost predicate Compact(evs: seq<Event>) {
    forall i, j :: 0 <= i < |evs| && 0 <= j < |evs| && evs[i].hash == evs[j].hash ==>
      Distance(evs[i].address, evs[j].address) < TWO31
  }

  // ------------------------------------------------------------------- every count is a reading

  /** How many of the readings are by the given thread at one of two addresses. */
  function Readings(evs: seq<Event>, hash: U64, a: U64, b: U64): nat {
    if evs == [] then 0 else
      var last := evs[|evs| - 1];
      Readings(evs[..|evs| - 1], hash, a, b) + (if last.hash == hash && (last.address == a || last.address == b) then 1 else 0)
  }

  /** The entry's counts are covered by readings, and its addresses were read. */
  ghost predicate Backed(e: Entry, evs: seq<Event>) {
    && e.before.count + e.after.count <= Readings(evs, e.hash, e.before.address, e.after.address)
    && (!e.Free() ==> Read(evs, e.hash, e.before.address))
    && (e.Paired() ==> Read(evs, e.hash, e.after.address))
  }

  ghost predicate Read(evs: seq<Event>, hash: U64, address: U64) {
    exists i :: 0 <= i < |evs| && evs[i].hash == hash && evs[i].address == address
  }

  lemma {:induction false} ReadingsOfOne(evs: seq<Event>, hash: U64, a: U64, b: U64)
    ensures Readings(evs, hash, a, b) >= Readings(evs, hash, a, 0) || (exists i :: 0 <= i < |evs| && evs[i].address == 0)
    ensures Readings(evs, hash, a, b) == Readings(evs, hash, b, a)
  {
    if evs != [] { ReadingsOfOne(evs[..|evs| - 1], hash, a, b); }
  }

  lemma ReadOn(evs: seq<Event>, ev: Event, hash: U64, address: U64)
    ensures Read(evs, hash, address) || (ev.hash == hash && ev.address == address) ==> Read(evs + [ev], hash, address)
  {
    if i :| 0 <= i < |evs| && evs[i].hash == hash && evs[i].address == address {
      assert (evs + [ev])[i] == evs[i];
    }
    assert (evs + [ev])[|evs|] == ev;
  }

  lemma ReadingsOn(evs: seq<Event>, ev: Event, hash: U64, a: U64, b: U64)
    ensures Readings(evs + [ev], hash, a, b)
            == Readings(evs, hash, a, b) + (if ev.hash == hash && (ev.address == a || ev.address == b) then 1 else 0)
  {
    assert (evs + [ev])[..|evs|] == evs;
  }

  lemma UpdatedBacked(e: Entry, evs: seq<Event>, ev: Event)
    requires EntryInv(e) && !e.Free() && Backed(e, evs) && Real(evs) && ev.address != 0 && Matches(e, ev.hash, ev.address)
    ensures Backed(Updated(e, ev.address, ev.time), evs + [ev])
  {
    hide Near, Gap, Averaged, Readings, Read;
    var u := Updated(e, ev.address, ev.time);
    ReadingsOfOne(evs, e.hash, e.before.address, u.before.address);
    ReadingsOfOne(evs, e.hash, e.before.address, u.after.address);
    ReadingsOn(evs, ev, e.hash, u.before.address, u.after.address);
    ReadOn(evs, ev, e.hash, u.before.address);
    ReadOn(evs, ev, e.hash, u.after.address);
    AveragedKeeps(e, Gap(ev.time, e.before.time));
    AveragedKeeps(e.(after := e.after.(address := ev.address)), Gap(ev.time, e.before.time));
  }

  lemma AveragedKeeps(e: Entry, d: U64)
    ensures var a := Averaged(e, d); a.before == e.before && a.after == e.after && a.hash == e.hash
  {}

  ghost predicate AllBacked(t: Table, evs: seq<Event>) { forall i :: 0 <= i < |t| ==> Backed(t[i], evs) }

  lemma ReadingBacked(t: Table, evs: seq<Event>, ev: Event)
    requires TableInv(t) && AllBacked(t, evs) && Real(evs + [ev])
    ensures Backed(Reading(t, ev), evs + [ev])
  {
    hide Updated, Near, Backed, Read, Readings;
    assert (evs + [ev])[|evs|] == ev;
    assert Real(evs) by { assert forall i :: 0 <= i < |evs| ==> (evs + [ev])[i] == evs[i]; }
    var found := FindFrom(t, ev.hash, ev.address, 0);
    if found < |t| {
      UpdatedBacked(t[found], evs, ev);
    } else {
      NewBacked(t[SlotFor(t)], evs, ev);
    }
  }

  lemma NewBacked(was: Entry, evs: seq<Event>, ev: Event)
    requires EntryInv(was)
    ensures Backed(NewEntry(was, ev), evs + [ev])
  {
    ReadingsOn(evs, ev, ev.hash, ev.address, 0);
    ReadOn(evs, ev, ev.hash, ev.address);
  }

  lemma StillBacked(e: Entry, evs: seq<Event>, ev: Event)
    requires Backed(e, evs)
    ensures Backed(e, evs + [ev])
  {
    hide Readings, Read;
    ReadingsOn(evs, ev, e.hash, e.before.address, e.after.address);
    ReadOn(evs, ev, e.hash, e.before.address);
    ReadOn(evs, ev, e.hash, e.after.address);
  }

  lemma StepBacked(t: Table, evs: seq<Event>, ev: Event)
    requires TableInv(t) && AllBacked(t, evs) && Real(evs + [ev])
    ensures AllBacked(Step(t, ev), evs + [ev])
  {
    assert Backed(CLEARED, evs + [ev]);
    hide Reading, Backed, TableInv, Real;
    ReadingBacked(t, evs, ev);
    forall i | 0 <= i < |t| ensures Backed(t[i], evs + [ev]) { StillBacked(t[i], evs, ev); }
  }

  lemma {:induction false} RunBacked(evs: seq<Event>)
    requires Real(evs)
    ensures AllBacked(Run(EMPTY, evs), evs)
  {
    hide Step, TableInv;
    if evs != [] {
      var first, ev := evs[..|evs| - 1], evs[|evs| - 1];
      assert first + [ev] == evs;
      RunBacked(first);
      RunInv(first);
      StepBacked(Run(EMPTY, first), first, ev);
    }
  }

  /** In every run: a pair is near if and only if its addresses are less than 2 GB apart. */
  lemma PairDistance(evs: seq<Event>, i: nat)
    requires Real(evs) && i < MAX_TSC_HITS && Run(EMPTY, evs)[i].Paired()
    ensures var e := Run(EMPTY, evs)[i];
            && e.before.address < e.after.address
            && (e.after.address - e.before.address < 0xFF <==> e.after.address - e.before.address < TWO31)
  {
    hide Run, Near;
    RunInv(evs);
    var e := Run(EMPTY, evs)[i];
    assert EntryInv(e);
    if Distance(e.before.address, e.after.address) < TWO31 { NearExactly(e.before.address, e.after.address); }
  }

  /** So where every thread reads within 2 GB, all pairs are near. */
  lemma CompactPairs(evs: seq<Event>, i: nat)
    requires Real(evs) && Compact(evs) && i < MAX_TSC_HITS && Run(EMPTY, evs)[i].Paired()
    ensures var e := Run(EMPTY, evs)[i]; 0 < e.after.address - e.before.address < 0xFF
  {
    hide Run, Readings;
    RunBacked(evs);
    PairDistance(evs, i);
    var e := Run(EMPTY, evs)[i];
    assert Backed(e, evs);
    var j :| 0 <= j < |evs| && evs[j].hash == e.hash && evs[j].address == e.before.address;
    var k :| 0 <= k < |evs| && evs[k].hash == e.hash && evs[k].address == e.after.address;
    assert Distance(evs[j].address, evs[k].address) < TWO31;
  }

  /** Nobody is reported for fewer than 511 readings: in every run, a report is backed by that
      many readings of that thread at the two addresses reported. */
  lemma ReportsAreBacked(evs: seq<Event>, ev: Event)
    requires Real(evs + [ev]) && Reported(Run(EMPTY, evs), ev)
    ensures var e := Reading(Run(EMPTY, evs), ev);
            && e.hash == ev.hash
            && Readings(evs + [ev], ev.hash, e.before.address, e.after.address) >= 511
  {
    RealParts(evs, ev);
    hide Run, Readings, Reading, Real;
    var t := Run(EMPTY, evs);
    RunInv(evs);
    RunBacked(evs);
    ReadingInv(t, ev);
    ReadingBacked(t, evs, ev);
    CandidateCounts(Reading(t, ev));
  }

  lemma RealParts(evs: seq<Event>, ev: Event)
    requires Real(evs + [ev])
    ensures Real(evs) && ev.hash != 0 && ev.address != 0
  {
    assert forall i :: 0 <= i < |evs| ==> (evs + [ev])[i] == evs[i];
    assert (evs + [ev])[|evs|] == ev;
  }

  lemma CandidateCounts(e: Entry)
    requires Candidate(e)
    ensures e.before.count + e.after.count >= 511
  {}

  // ------------------------------------------------------------------- recycling

  /** Which entry a reading by another thread can cost: only when no slot is free, an orphan if
      there is one, and then the oldest of its kind. */
  lemma RecyclesOldest(t: Table, ev: Event, i: nat)
    requires i < |t| && t[i].hash != ev.hash && Step(t, ev)[i] != t[i] && !t[i].Free()
    ensures forall j :: 0 <= j < |t| ==> !t[j].Free()
    ensures t[i].Paired() ==> forall j :: 0 <= j < |t| ==> t[j].Paired()
    ensures forall j :: 0 <= j < |t| && t[j].Orphan() == t[i].Orphan() ==> t[i].before.time <= t[j].before.time
  {
    hide Reading, Left, Oldest;
    OldestIs(t, true, |t|);
    OldestIs(t, false, |t|);
    assert Touched(t, ev) == i;
    assert FirstFree(t, 0) == |t|;
    if t[i].Paired() {
      forall j | 0 <= j < |t| ensures t[j].Paired() { assert t[j].Orphan() != true; }
    }
  }

  // ------------------------------------------------------------------- detection

  /** One thread reads the counter alternately at a and b. */
  ghost predicate Alternates(evs: seq<Event>, hash: U64, a: U64, b: U64) {
    forall i :: 0 <= i < |evs| ==> evs[i].hash == hash && evs[i].address == (if i % 2 == 0 then a else b)
  }

  /** Time from a reading at a to the reading at b that follows it. */
  function Delta(evs: seq<Event>, i: nat): U64
    requires 0 < i < |evs|
  {
    Sub64(evs[i].time, evs[i - 1].time)
  }

  /** Each delta is regular, or stands out of all regular ones. */
  ghost predicate Steady(evs: seq<Event>, lo: nat, hi: nat) {
    forall i :: 0 < i < |evs| && i % 2 == 1 ==>
      lo <= Delta(evs, i) <= hi || (2 * Delta(evs, i) > 5 * hi && Delta(evs, i) < TWO31)
  }

  /** How many of the deltas among the first n readings stand out. */
  function Spikes(evs: seq<Event>, hi: nat, n: nat): (r: nat)
    requires n <= |evs|
    ensures r <= n
  {
    if n == 0 then 0 else Spikes(evs, hi, n - 1) + (if n % 2 == 0 && Delta(evs, n - 1) > hi then 1 else 0)
  }

  lemma GapForward(a: U64, b: U64)
    requires Sub64(a, b) < TWO31
    ensures Gap(a, b) == Sub64(a, b)
  {}

  lemma GapBetween(a: U64, b: U64)
    requires a < TWO31 && b < TWO31
    ensures Gap(a, b) == Distance(a, b)
  {
    hide Gap, Sub64;
    if a >= b {
      SubForward(a, b);
      GapForward(a, b);
    } else {
      GapBack(a, b);
    }
  }

  lemma SubForward(a: U64, b: U64)
    requires b <= a
    ensures Sub64(a, b) == a - b
  {}

  lemma GapBack(a: U64, b: U64)
    requires a < b < TWO31
    ensures Gap(a, b) == b - a
  {
    var d := b - a;
    assert Sub64(a, b) == TWO64 - d;
    LowOfNegative(d);
    assert ToInt(Sub64(a, b)) == -d;
  }

  lemma AverageOf(e: Entry, d: U64, lo: nat, hi: nat)
    requires 0 < lo && 2 * hi <= 5 * lo && hi <= MAX_DIFFERENCE && lo <= e.difference <= hi && d < TWO31
    ensures lo <= d <= hi ==> Averaged(e, d).skips == e.skips && lo <= Averaged(e, d).difference <= hi
    ensures 2 * d > 5 * hi ==> Averaged(e, d) == e.(skips := (e.skips + 1) % TWO32)
  {
    hide Gap;
    var x := e.difference;
    GapBetween(d, x);
    assert (x * 3) % TWO64 == x * 3 && (x + d) % TWO64 == x + d;
    AverageBetween(x, d, lo, hi);
  }

  lemma AverageBetween(x: nat, d: nat, lo: nat, hi: nat)
    requires lo <= x <= hi <= MAX_DIFFERENCE
    ensures lo <= d <= hi ==> lo <= (x + d) / 2 <= hi
    ensures 2 * hi <= 5 * lo && lo <= d <= hi ==> !(d > x && d - x > x * 3 / 2)
    ensures 2 * d > 5 * hi ==> d > x && d - x > x * 3 / 2
  {}

  /** The bound 2 * hi <= 5 * lo is the exact one: beyond it the two extremes skip. */
  lemma SkipsExactly(e: Entry, lo: nat, hi: nat)
    requires 0 < lo <= hi < TWO31 && e.difference == lo
    ensures (Averaged(e, hi).difference == lo && Averaged(e, hi).skips == (e.skips + 1) % TWO32) <==> 2 * hi > 5 * lo
  {
    hide Gap;
    GapBetween(hi, lo);
  }

  /** The reading at a or b, counted from the first at a, that decides. */
  const LAST_READING := 511

  /** How a thread reads: alternately at a < b, with regular deltas in [lo, hi].  `above` is its
      very first reading if that was at b. */
  datatype Habit = Habit(hash: U64, a: U64, b: U64, lo: nat, hi: nat, above: seq<Event>)

  ghost predicate Pattern(evs: seq<Event>, h: Habit) {
    && h.hash != 0 && 0 < h.a < h.b < TWO64 && Near(h.a, h.b)
    && 0 < h.lo && 2 * h.hi <= 5 * h.lo && h.hi <= 0x50000
    && |h.above| <= 1 && (forall e :: e in h.above ==> e.hash == h.hash && e.address == h.b)
    && Alternates(evs, h.hash, h.a, h.b) && Steady(evs, h.lo, h.hi)
    && (|evs| > 1 ==> Delta(evs, 1) <= h.hi)
  }

  /** The table after n alternate readings: one entry, counting both addresses. */
  ghost predicate Tracks(t: Table, evs: seq<Event>, n: nat, h: Habit)
    requires n <= |evs| && n <= LAST_READING
  {
    && (forall i :: 0 < i < |t| ==> t[i] == CLEARED)
    && if n > 0 then Follows(t[0], evs, n, h)
       else if h.above == [] then t[0] == CLEARED
       else t[0] == Entry(Hit(h.b, h.above[0].time, 1), NO_HIT, 0, 0, h.hash)
  }

  ghost predicate Follows(e: Entry, evs: seq<Event>, n: nat, h: Habit)
    requires 0 < n <= |evs| && n <= LAST_READING
  {
    && e.hash == h.hash
    && e.before == Hit(h.a, evs[if n % 2 == 0 then n - 2 else n - 1].time, (n + 1) / 2)
    && e.skips == Spikes(evs, h.hi, n)
    && if n == 1 then e.difference == 0 && e.after == (if h.above == [] then NO_HIT else Hit(h.b, h.above[0].time, 1))
       else e.after.address == h.b && e.after.count == n / 2 + |h.above| && h.lo <= e.difference <= h.hi
  }

  lemma NextA(e: Entry, evs: seq<Event>, n: nat, h: Habit)
    requires Pattern(evs, h) && 0 < n < |evs| && n < LAST_READING && n % 2 == 0 && Follows(e, evs, n, h)
    ensures Follows(Updated(e, h.a, evs[n].time), evs, n + 1, h)
  {
    hide Near, Gap, Averaged, Steady, Alternates, Delta;
    assert Spikes(evs, h.hi, n + 1) == Spikes(evs, h.hi, n);
  }

  /** What the After reading finds: the time since the Before is the delta. */
  lemma DeltaAt(e: Entry, evs: seq<Event>, n: nat, h: Habit)
    requires Pattern(evs, h) && 0 < n < |evs| && n < LAST_READING && n % 2 == 1 && Follows(e, evs, n, h)
    ensures h.lo <= Delta(evs, n) <= h.hi || (2 * Delta(evs, n) > 5 * h.hi && Delta(evs, n) < TWO31)
    ensures Gap(evs[n].time, e.before.time) == Delta(evs, n)
    ensures Spikes(evs, h.hi, n + 1) == Spikes(evs, h.hi, n) + if Delta(evs, n) > h.hi then 1 else 0
  {
    assert h.lo <= Delta(evs, n) <= h.hi || (2 * Delta(evs, n) > 5 * h.hi && Delta(evs, n) < TWO31);
    hide Near, Gap, Averaged, Sub64, Alternates, Steady;
    GapForward(evs[n].time, evs[n - 1].time);
  }

  /** What an After reading changes: the average, and the After's time and count. */
  lemma AfterHit(e: Entry, b: U64, time: U64)
    requires e.before.address < b && (e.after.address == b || e.after == NO_HIT) && e.after.count < TWO64 - 1
    ensures var u, m := Updated(e, b, time), Averaged(e, Gap(time, e.before.time));
            && u.hash == e.hash && u.before == e.before
            && u.after.address == b && u.after.count == e.after.count + 1
            && u.skips == m.skips && u.difference == m.difference
  {
    hide Gap;
  }

  lemma NextB(e: Entry, evs: seq<Event>, n: nat, h: Habit)
    requires Pattern(evs, h) && 0 < n < |evs| && n < LAST_READING && n % 2 == 1 && Follows(e, evs, n, h)
    ensures Follows(Updated(e, h.b, evs[n].time), evs, n + 1, h)
  {
    var d := Delta(evs, n);
    DeltaAt(e, evs, n, h);
    AfterHit(e, h.b, evs[n].time);
    assert 0 < h.lo && 2 * h.hi <= 5 * h.lo && h.hi <= MAX_DIFFERENCE && (n == 1 ==> d <= h.hi) && |h.above| <= 1;
    hide Pattern, Gap, Averaged, Delta, Spikes, Updated;
    NextAverage(e, d, h.lo, h.hi, n);
  }

  /** The average after a delta: it stays within the bounds, and a delta that stands out is
      counted instead. */
  lemma NextAverage(e: Entry, d: U64, lo: nat, hi: nat, n: nat)
    requires 0 < lo && 2 * hi <= 5 * lo && hi <= MAX_DIFFERENCE && n < LAST_READING && e.skips <= n
    requires lo <= d <= hi || (2 * d > 5 * hi && d < TWO31)
    requires if n == 1 then e.difference == 0 && d <= hi else lo <= e.difference <= hi
    ensures var m := Averaged(e, d);
            lo <= m.difference <= hi && m.skips == e.skips + if d > hi then 1 else 0
  {
    hide Averaged;
    if n == 1 {
      FirstAverage(e, d);
    } else {
      AverageOf(e, d, lo, hi);
    }
  }

  lemma FirstAverage(e: Entry, d: U64)
    requires e.difference == 0
    ensures Averaged(e, d) == e.(difference := d)
  {}

  lemma FoundFirst(t: Table, evs: seq<Event>, n: nat, h: Habit)
    requires Pattern(evs, h) && n < |evs| && n < LAST_READING && Tracks(t, evs, n, h)
    ensures Touched(t, evs[n]) == 0
    ensures if n == 0 && h.above == [] then FindFrom(t, evs[n].hash, evs[n].address, 0) == |t|
            else FindFrom(t, evs[n].hash, evs[n].address, 0) == 0
  {
    hide Steady, Spikes, Oldest;
    var ev := evs[n];
    if n == 0 && h.above == [] {
      assert forall i :: 0 <= i < |t| ==> !Matches(t[i], ev.hash, ev.address);
    } else {
      NearSymmetric(h.a, h.b);
      assert Near(h.a, h.a);
      assert Matches(t[0], ev.hash, ev.address);
    }
  }

  lemma NextReading(t: Table, evs: seq<Event>, n: nat, h: Habit)
    requires Pattern(evs, h) && n < |evs| && n < LAST_READING && Tracks(t, evs, n, h)
    ensures Touched(t, evs[n]) == 0 && Follows(Reading(t, evs[n]), evs, n + 1, h)
  {
    FoundFirst(t, evs, n, h);
    assert n == 0 && h.above == [] ==> SlotFor(t) == 0;
    if n == 0 && h.above != [] { LowerAfter(t[0], h.a, evs[0].time); }
    hide Near, Steady, FindFrom, SlotFor, Updated, Touched;
    if n == 0 {
      assert Spikes(evs, h.hi, 1) == 0;
    } else if n % 2 == 0 {
      NextA(t[0], evs, n, h);
    } else {
      NextB(t[0], evs, n, h);
    }
  }

  /** A first reading below the only one: the pair is turned round. */
  lemma LowerAfter(e: Entry, a: U64, time: U64)
    requires 0 < a < e.before.address && e.after == NO_HIT
    ensures Updated(e, a, time) == e.(before := Hit(a, time, 1), after := e.before)
  {}

  /** Up to reading 510 the entry is kept and not reported; at reading 511 it is decided. */
  lemma Verdict(e: Entry, evs: seq<Event>, n: nat, h: Habit)
    requires Pattern(evs, h) && 0 < n <= |evs| && n <= LAST_READING && Follows(e, evs, n, h)
    ensures n <= 510 ==> !Candidate(e) && Left(e) == e
    ensures n == 511 ==> (Candidate(e) <==> Spikes(evs, h.hi, 511) < 12) && Left(e) == CLEARED
  {
    hide Near, Steady, Spikes, Alternates, Delta;
  }

  /** The one reading before, if it was at the higher address. */
  lemma AboveTracks(evs: seq<Event>, h: Habit)
    requires Pattern(evs, h)
    ensures Tracks(Run(EMPTY, h.above), evs, 0, h)
  {
    hide Steady, Near, Alternates;
    assert Run(EMPTY, []) == EMPTY;
    if h.above != [] {
      var e := h.above[0];
      assert h.above == [e] && [e][..0] == [];
      assert Run(EMPTY, [e]) == Step(EMPTY, e);
      assert forall i :: 0 <= i < |EMPTY| ==> !Matches(EMPTY[i], e.hash, e.address);
      assert FindFrom(EMPTY, e.hash, e.address, 0) == |EMPTY| && SlotFor(EMPTY) == 0;
    }
  }

  lemma {:induction false} TrackedRun(evs: seq<Event>, n: nat, h: Habit)
    requires Pattern(evs, h) && n <= |evs| && n <= 510
    ensures Tracks(Run(EMPTY, h.above + evs[..n]), evs, n, h)
    ensures n < |evs| ==> Follows(Reading(Run(EMPTY, h.above + evs[..n]), evs[n]), evs, n + 1, h)
  {
    hide Pattern, Reading, Touched, Follows, Left;
    if n > 0 {
      TrackedRun(evs, n - 1, h);
      var before, now := h.above + evs[..n - 1], h.above + evs[..n];
      assert now[..|now| - 1] == before && now[|now| - 1] == evs[n - 1];
      NextReading(Run(EMPTY, before), evs, n - 1, h);
      Verdict(Reading(Run(EMPTY, before), evs[n - 1]), evs, n, h);
    } else {
      assert h.above + evs[..0] == h.above;
      AboveTracks(evs, h);
    }
    if n < |evs| { NextReading(Run(EMPTY, h.above + evs[..n]), evs, n, h); }
  }

  /** Detection: a thread that reads the counter alternately at a < b is reported at its
      reading 511 if fewer than 12 of its 255 deltas stand out (in particular if all are
      within [lo, hi]), not before, and not at all otherwise; either way its entry is gone.
      When its very first reading was at b, that one does not count. */
  lemma Detection(evs: seq<Event>, n: nat, h: Habit)
    requires Pattern(evs, h) && |evs| == 511 && n < 511
    ensures Reported(Run(EMPTY, h.above + evs[..n]), evs[n]) <==> n == 510 && Spikes(evs, h.hi, 511) < 12
    ensures n == 510 ==> Step(Run(EMPTY, h.above + evs[..n]), evs[n]) == EMPTY
  {
    hide Pattern, Reading, Touched, Follows, Left, Candidate;
    var t := Run(EMPTY, h.above + evs[..n]);
    TrackedRun(evs, n, h);
    NextReading(t, evs, n, h);
    Verdict(Reading(t, evs[n]), evs, n + 1, h);
  }

  /** Until then a regular thread is never skipped, and its average stays between the bounds. */
  lemma NeverSkipped(evs: seq<Event>, n: nat, h: Habit)
    requires Pattern(evs, h) && 2 <= n <= |evs| && n <= 510
    requires forall i :: 0 < i < |evs| && i % 2 == 1 ==> Delta(evs, i) <= h.hi
    ensures var e := Run(EMPTY, h.above + evs[..n])[0]; e.skips == 0 && h.lo <= e.difference <= h.hi
  {
    hide Pattern;
    TrackedRun(evs, n, h);
    NoSpikes(evs, h.hi, n);
  }

  lemma {:induction false} NoSpikes(evs: seq<Event>, hi: nat, n: nat)
    requires n <= |evs| && forall i :: 0 < i < |evs| && i % 2 == 1 ==> Delta(evs, i) <= hi
    ensures Spikes(evs, hi, n) == 0
  {
    if n > 0 { NoSpikes(evs, hi, n - 1); }
  }

  // ------------------------------------------------------------------- in plain numbers

  /** The thresholds of a report, for counts below 2^31. */
  lemma CandidateExactly(e: Entry)
    requires e.before.count < 0x8000_0000 && e.after.count < 0x8000_0000
    ensures Candidate(e) <==>
      && e.before.address != 0 && e.after.address != 0
      && 0 < e.difference <= 0x50000
      && e.before.count >= 256
      && -1 <= e.before.count - e.after.count <= 1
      && e.skips < e.before.count / 20
  {
    SyncExactly(e.before.count, e.after.count);
    hide Sub64, ToInt;
  }

  lemma SyncExactly(x: U64, y: U64)
    requires x < TWO31 && y < TWO31
    ensures AbsInt(ToInt(Sub64(x, y))) < 2 <==> -1 <= x - y <= 1
  {
    GapBetween(x, y);
    SignedGap(x, y);
    hide Gap;
  }

  lemma SignedGap(x: U64, y: U64)
    requires x < TWO31 && y < TWO31
    ensures ToInt(Sub64(x, y)) == x - y
  {
    if x >= y {
      SubForward(x, y);
    } else {
      LowOfNegative(y - x);
      assert Sub64(x, y) == TWO64 - (y - x);
    }
  }

  /** When an entry is cleared: a pair with an average above 0x50000 or with more than 255
      Before readings, reported or not; no other. */
  lemma LeftExactly(e: Entry)
    ensures Left(e) ==
      if e.before.address != 0 && e.after.address != 0 && e.difference != 0
         && (e.difference > 0x50000 || e.before.count >= 256)
      then Entry(Hit(0, 0, 0), Hit(0, 0, 0), 0, 0, 0) else e
  {}

  /** The running average, below 2^31: the first difference; a difference of more than two
      and a half times the average is counted as skipped; else the mean. */
  lemma AveragedExactly(e: Entry, d: U64)
    requires e.difference < 0x8000_0000 && d < 0x8000_0000 && e.skips < 0xFFFF_FFFF
    ensures Averaged(e, d) ==
      if e.difference == 0 then e.(difference := d)
      else if d > e.difference + e.difference * 3 / 2 then e.(skips := e.skips + 1)
      else e.(difference := (e.difference + d) / 2)
  {
    hide Gap;
    var x := e.difference;
    GapBetween(d, x);
    SmallNumbers(x, d);
  }

  lemma SmallNumbers(x: nat, d: nat)
    requires x < TWO31 && d < TWO31
    ensures (x * 3) % TWO64 == x * 3 && (x + d) % TWO64 == x + d
  {}

  /** What a reading at an address does to the entry found for it. */
  lemma UpdatedExactly(e: Entry, address: U64, time: U64)
    requires EntryInv(e) && !e.Free() && address != 0 && Matches(e, e.hash, address)
    requires e.before.count < TWO64 - 1 && e.after.count < TWO64 - 1
    ensures var u, m := Updated(e, address, time), Averaged(e, Gap(time, e.before.time));
      if address == e.before.address then u == e.(before := Hit(address, time, e.before.count + 1))
      else if address == e.after.address then
        u == m.(before := e.before, after := Hit(address, time, e.after.count + 1))
      else if address > e.before.address then u == m.(before := e.before, after := Hit(address, time, 1))
      else u == e.(before := Hit(address, time, 1), after := e.before)
  {
    hide Gap, Near;
  }

  /** In every run a report means that the two counts differ by one at most, and that less than
      a twentieth of the Before readings was skipped. */
  lemma ReportsInStep(evs: seq<Event>, ev: Event)
    requires Real(evs + [ev]) && |evs| < 0x7FFF_FFFF && Reported(Run(EMPTY, evs), ev)
    ensures var e := Reading(Run(EMPTY, evs), ev);
      && e.before.count >= 256 && -1 <= e.before.count - e.after.count <= 1
      && e.skips * 20 < e.before.count
      && e.before.count + e.after.count <= |evs| + 1
  {
    RealParts(evs, ev);
    hide Run, Readings, Reading, Real, Candidate;
    var t := Run(EMPTY, evs);
    RunInv(evs);
    RunBacked(evs);
    ReadingBacked(t, evs, ev);
    var e := Reading(t, ev);
    ReadingsFew(evs + [ev], e.hash, e.before.address, e.after.address);
    CandidateExactly(e);
  }

  lemma {:induction false} ReadingsFew(evs: seq<Event>, hash: U64, a: U64, b: U64)
    ensures Readings(evs, hash, a, b) <= |evs|
  {
    if evs != [] { ReadingsFew(evs[..|evs| - 1], hash, a, b); }
  }
}
