/** Where the allocations of src/mem.c put a block and what they make of the block it comes out
    of, in plain numbers: 24 is the size of a header and 40 that of a header with a minimal
    free block. */
module HeapExact {
  import opened HeapLayout
  import opened HeapRuns

  /** Free block e has room for n bytes at the multiple t of a.  The gap in front of t must be
      there; in front of the first block of the heap, which starts at 24, it must hold a block
      of its own. */
  ghost predicate Room(e: Extent, n: nat, a: nat, t: nat)
    requires a > 0
  {
    t % a == 0 && e.off < t && (e.off == 24 ==> t >= e.off + 40) && t + n <= e.off + e.len
  }

  lemma NextOne(t: nat, u: nat, a: nat)
    requires a > 0 && t % a == 0 && u % a == 0 && t > u
    ensures t >= u + a
  {
    var p, q := t / a, u / a;
    assert t == p * a && u == q * a;
    assert (p - q) * a == t - u;
    MulAtLeast(p - q, a);
  }

  lemma {:induction false} BumpLeast(x: nat, gap: nat, a: nat, t: nat)
    requires a > 0 && (x + gap) % a == 0 && t % a == 0 && t >= x + gap && t >= x + 40
    ensures x + Bump(gap, a) <= t
    decreases 40 - gap
  {
    if gap < 40 {
      NextOne(t, x + gap, a);
      AddMod(x + gap, a);
      BumpLeast(x, gap + a, a, t);
    }
  }

  /** The offset tried in a free block is the least that the alignment allows. */
  lemma SpotLeast(c: seq<Extent>, i: nat, a: nat, t: nat)
    requires i < |c| && a > 0 && t % a == 0 && t > c[i].off && (i == 0 ==> t >= c[i].off + 40)
    ensures Spot(c, i, a) <= t
  {
    var x := c[i].off;
    var up := NextMultiple(x, a);
    NextMultipleAbove(x, a);
    if t < up {
      NextOne(up, t, a);
      assert false;
    }
    if i == 0 { BumpLeast(x, up - x, a, t); }
  }

  /** The search's test on a free block, in plain numbers. */
  lemma FitsExactly(s: Layout, size: nat, i: nat, n: nat, a: nat)
    requires Inv(s, size) && FreeAt(s.chain, i) && n > 0 && a > 0
    ensures Fits(s.chain, s.chain[i].off, Aligned(n, a)) <==> Room(s.chain[i], n, a, Spot(s.chain, i, a))
    ensures Fits(s.chain, s.chain[i].off, Aligned(n, a)) <==> exists t: nat :: Room(s.chain[i], n, a, t)
  {
    hide Spot, Lists, Coalesced;
    var c, e := s.chain, s.chain[i];
    TilesBounds(c, size);
    SpotAligned(c, i, a);
    assert e.off == 24 <==> i == 0 by { FirstAt24(c, size, i); }
    if t: nat :| Room(e, n, a, t) { SpotLeast(c, i, a, t); }
  }

  lemma FirstAt24(c: seq<Extent>, size: nat, i: nat)
    requires Tiles(c, size) && i < |c|
    ensures c[i].off == 24 <==> i == 0
  {
    TilesBounds(c, size);
  }

  /** An aligned request fails exactly when no free block has room for it at any multiple of
      the alignment. */
  lemma AlignedNullExactly(s: Layout, size: nat, n: nat, a: nat)
    requires Inv(s, size) && n > 0 && a > 0
    ensures Allocated(s, Aligned(n, a)) == 0 <==>
            forall e, t: nat :: e in s.chain && !e.used ==> !Room(e, n, a, t)
  {
    hide Sound, Coalesced, Fits, Room, Allocated, Alloc;
    NullExactly(s, size, Aligned(n, a));
    forall i | 0 <= i < |s.chain| && !s.chain[i].used
      ensures Fits(s.chain, s.chain[i].off, Aligned(n, a)) <==> exists t: nat :: Room(s.chain[i], n, a, t)
    {
      FitsExactly(s, size, i, n, a);
    }
  }

  /** It is served at the least such multiple in the first free block, in list order, that has
      one. */
  lemma AlignedServedFirst(s: Layout, size: nat, n: nat, a: nat) returns (k: nat, e: Extent)
    requires Inv(s, size) && n > 0 && a > 0 && Allocated(s, Aligned(n, a)) != 0
    ensures k < |s.free| && e in s.chain && !e.used && e.off == s.free[k]
    ensures Room(e, n, a, Allocated(s, Aligned(n, a)))
    ensures forall t: nat :: Room(e, n, a, t) ==> Allocated(s, Aligned(n, a)) <= t
    ensures forall j, d, t: nat :: 0 <= j < k && d in s.chain && d.off == s.free[j] ==> !Room(d, n, a, t)
  {
    hide Sound, Coalesced, Fits, Spot;
    var req := Aligned(n, a);
    k := FirstFit(s, req, 0);
    FreeListed(s, size, k);
    var i := IndexOf(s.chain, s.free[k]);
    e := s.chain[i];
    FitsExactly(s, size, i, n, a);
    forall t: nat | Room(e, n, a, t) ensures Spot(s.chain, i, a) <= t {
      RoomLeast(s, size, i, n, a, t);
    }
    forall j, d, t: nat | 0 <= j < k && d in s.chain && d.off == s.free[j] ensures !Room(d, n, a, t) {
      EarlierLacksRoom(s, size, n, a, j, d, t);
    }
  }

  lemma RoomLeast(s: Layout, size: nat, i: nat, n: nat, a: nat, t: nat)
    requires Inv(s, size) && i < |s.chain| && a > 0 && Room(s.chain[i], n, a, t)
    ensures Spot(s.chain, i, a) <= t
  {
    FirstAt24(s.chain, size, i);
    SpotLeast(s.chain, i, a, t);
  }

  lemma EarlierLacksRoom(s: Layout, size: nat, n: nat, a: nat, j: nat, d: Extent, t: nat)
    requires Inv(s, size) && n > 0 && a > 0 && j < FirstFit(s, Aligned(n, a), 0)
    requires d in s.chain && d.off == s.free[j]
    ensures !Room(d, n, a, t)
  {
    hide Sound, Coalesced, Spot, Fits;
    FreeListed(s, size, j);
    var i := IndexOf(s.chain, s.free[j]);
    OnlyAt(s, size, d, i);
    FitsExactly(s, size, i, n, a);
  }

  lemma OnlyAt(s: Layout, size: nat, d: Extent, i: nat)
    requires Inv(s, size) && d in s.chain && i < |s.chain| && s.chain[i].off == d.off
    ensures s.chain[i] == d
  {
    TilesBounds(s.chain, size);
    var j :| 0 <= j < |s.chain| && s.chain[j] == d;
    assert i < j || i == j || j < i;
  }

  /** A plain request is served by the first free block, in list order, that is large enough. */
  lemma PlainServedFirst(s: Layout, size: nat, n: nat) returns (k: nat)
    requires Inv(s, size) && n > 0 && Allocated(s, Plain(n)) != 0
    ensures k < |s.free| && Allocated(s, Plain(n)) == s.free[k]
    ensures forall d :: d in s.chain && d.off == s.free[k] ==> !d.used && d.len >= n
    ensures forall j, d :: 0 <= j < k && d in s.chain && d.off == s.free[j] ==> d.len < n
  {
    hide Sound, Coalesced;
    k := FirstFit(s, Plain(n), 0);
    FreeListed(s, size, k);
    forall d | d in s.chain && d.off == s.free[k] ensures !d.used && d.len >= n {
      OnlyAt(s, size, d, IndexOf(s.chain, s.free[k]));
    }
    forall j, d | 0 <= j < k && d in s.chain && d.off == s.free[j] ensures d.len < n {
      FreeListed(s, size, j);
      OnlyAt(s, size, d, IndexOf(s.chain, s.free[j]));
    }
  }

  // ------------------------------------------------------------ what becomes of the block

  /** Free block b after n bytes at offset t were taken out of it, in chain d: the granted block
      has exactly n bytes where 40 more are left behind it, and then a free block has the rest;
      else it has all there is. */
  ghost predicate Granted(b: Extent, n: nat, t: nat, d: seq<Extent>) {
    && b.off <= t && t + n <= b.off + b.len
    && var left := b.off + b.len - t;
       if left >= n + 40 then Extent(t, n, true) in d && Extent(t + n + 24, left - n - 24, false) in d
       else Extent(t, left, true) in d
  }

  /** The gap in front of t becomes a free block where one fits, else the used block before it
      grows by the gap. */
  ghost predicate GapGiven(b: Extent, t: nat, c: seq<Extent>, d: seq<Extent>) {
    t >= b.off &&
    if t == b.off then forall e :: e in c && e.used ==> e in d
    else if t >= b.off + 40 then
      Extent(b.off, t - b.off - 24, false) in d && forall e :: e in c && e.used ==> e in d
    else
      forall e :: e in c && e.used ==>
        if e.off + e.len + 24 == b.off then e.(len := e.len + (t - b.off)) in d else e in d
  }

  /** An allocation takes the block granted out of one free block, and nothing else changes but
      for the gap. */
  lemma AllocExactly(s: Layout, size: nat, req: Request) returns (b: Extent)
    requires Inv(s, size) && req.Legal() && Allocated(s, req) != 0
    ensures b in s.chain && !b.used
    ensures Granted(b, req.n, Allocated(s, req), Alloc(s, req).chain)
    ensures GapGiven(b, Allocated(s, req), s.chain, Alloc(s, req).chain)
  {
    hide Sound, Coalesced, TakeInto, TakeFrom, Take, FirstFit, Spot, Carve, Granted, GapGiven, Fits;
    var k := FirstFit(s, req, 0);
    FreeListed(s, size, k);
    TakeChain(s, size, req, k);
    var c, i := s.chain, IndexOf(s.chain, s.free[k]);
    var m, z := TakeFrom(s, req, i), TakeInto(s, req, i);
    b := c[i];
    TakeGrants(s, req, i);
    GrantedIn(b, req.n, Allocated(s, req), c[..m], z, c[i + 1..]);
    TakeGap(s, size, req, i);
  }

  lemma GrantedIn(b: Extent, n: nat, t: nat, x: seq<Extent>, z: seq<Extent>, y: seq<Extent>)
    requires Granted(b, n, t, z)
    ensures Granted(b, n, t, x + z + y)
  {
    InThree(x, z, y);
  }

  lemma InThree(a: seq<Extent>, z: seq<Extent>, b: seq<Extent>)
    ensures forall e :: e in a + z + b <==> e in a || e in z || e in b
  {}

  lemma TakeGrants(s: Layout, req: Request, i: nat)
    requires i < |s.chain| && req.Legal() && Fits(s.chain, s.chain[i].off, req)
    requires IndexOf(s.chain, s.chain[i].off) == i
    ensures Granted(s.chain[i], req.n, if req.Plain? then s.chain[i].off else Spot(s.chain, i, req.alignment), TakeInto(s, req, i))
  {
    hide Spot;
    var z, e := TakeInto(s, req, i), s.chain[i];
    match req
    case Plain(n) => CarveHas(e, n);
    case Aligned(n, a) =>
      var t := Spot(s.chain, i, a);
      CarveHas(Extent(t, e.len - (t - e.off), false), n);
  }

  lemma CarveHas(e: Extent, n: nat)
    requires n <= e.len
    ensures if e.len >= n + 40 then Extent(e.off, n, true) in Carve(e, n) && Extent(e.off + n + 24, e.len - n - 24, false) in Carve(e, n)
            else Extent(e.off, e.len, true) in Carve(e, n)
  {
    var z := Carve(e, n);
    assert z[0] in z;
    if e.len >= n + 40 { assert z[1] in z; }
  }

  lemma TakeGap(s: Layout, size: nat, req: Request, i: nat)
    requires Inv(s, size) && FreeAt(s.chain, i) && req.Legal() && Fits(s.chain, s.chain[i].off, req)
    requires IndexOf(s.chain, s.chain[i].off) == i
    ensures var c := s.chain;
            GapGiven(c[i], if req.Plain? then c[i].off else Spot(c, i, req.alignment), c,
                     c[..TakeFrom(s, req, i)] + TakeInto(s, req, i) + c[i + 1..])
  {
    hide Lists, Coalesced, Spot, Carve, Spans, GapGiven, Fits;
    var c, z := s.chain, TakeInto(s, req, i);
    match req
    case Plain(n) => GapNone(c, i, z, c[i].off);
    case Aligned(n, a) =>
      var t := Spot(c, i, a);
      assert z[0] == AlignGap(c, i, t);
      if t >= c[i].off + 40 { GapNone(c, i, z, t); } else { GapMoved(c, size, i, z, t); }
  }

  lemma GapNone(c: seq<Extent>, i: nat, z: seq<Extent>, t: nat)
    requires FreeAt(c, i) && (t == c[i].off || (t >= c[i].off + 40 && z != [] && z[0] == Extent(c[i].off, t - c[i].off - 24, false)))
    ensures GapGiven(c[i], t, c, c[..i] + z + c[i + 1..])
  {
    InThree(c[..i], z, c[i + 1..]);
    InThree(c[..i], [c[i]], c[i + 1..]);
    assert c == c[..i] + [c[i]] + c[i + 1..];
    assert z != [] ==> z[0] in z;
  }

  lemma GapMoved(c: seq<Extent>, size: nat, i: nat, z: seq<Extent>, t: nat)
    requires Tiles(c, size) && 0 < i < |c| && !c[i].used && c[i].off < t < c[i].off + 40
    requires z != [] && z[0] == c[i - 1].(len := c[i - 1].len + (t - c[i].off))
    ensures GapGiven(c[i], t, c, c[..i - 1] + z + c[i + 1..])
  {
    hide Tiles;
    var d := c[..i - 1] + z + c[i + 1..];
    InThree(c[..i - 1], z, c[i + 1..]);
    InThree(c[..i - 1], [c[i - 1], c[i]], c[i + 1..]);
    assert c == c[..i - 1] + [c[i - 1], c[i]] + c[i + 1..];
    assert z[0] in z;
    Neighbours(c, size, i);
    forall e | e in c && e.used
      ensures if e.off + e.len + 24 == c[i].off then e.(len := e.len + (t - c[i].off)) in d else e in d
    {
      var j :| 0 <= j < |c| && c[j] == e;
      if e.off + e.len + 24 == c[i].off { assert j == i - 1; } else { assert e != c[i - 1]; }
    }
  }

  /** The block that ends where another begins is the one before it. */
  lemma Neighbours(c: seq<Extent>, size: nat, i: nat)
    requires Tiles(c, size) && 0 < i < |c|
    ensures c[i - 1].off + c[i - 1].len + 24 == c[i].off
    ensures forall j :: 0 <= j < |c| && c[j].off + c[j].len + 24 == c[i].off ==> j == i - 1
  {
    TilesBounds(c, size);
  }
}
