/** What the heap of src/mem.c promises over single operations and whole histories,
    stated on the layout values of HeapLayout. */
module HeapRuns {
  import opened HeapLayout

  // --------------------------------------------------------- what an allocation gives

  /** The live block e is still there: same address, still used, not smaller. */
  ghost predicate Survives(e: Extent, c: seq<Extent>) {
    exists f :: f in c && f.used && f.off == e.off && f.len >= e.len
  }

  lemma SurvivesEdit(a: seq<Extent>, y: seq<Extent>, b: seq<Extent>, z: seq<Extent>)
    requires forall e :: e in y && e.used ==> Survives(e, z)
    ensures forall e :: e in a + y + b && e.used ==> Survives(e, a + z + b)
  {
    forall e | e in a + y + b && e.used ensures Survives(e, a + z + b) {
      if e in a || e in b {
        assert e in a + z + b;
      } else {
        var f :| f in z && f.used && f.off == e.off && f.len >= e.len;
        assert f in a + z + b;
      }
    }
  }

  /** First chain position an allocation changes. */
  function TakeFrom(s: Layout, req: Request, i: nat): (k: nat)
    requires i < |s.chain| && req.Legal()
    ensures k <= i
  {
    match req
    case Plain(_) => i
    case Aligned(_, a) => AlignFrom(s.chain, i, Spot(s.chain, i, a))
  }

  /** What the changed stretch of the chain becomes. */
  function TakeInto(s: Layout, req: Request, i: nat): (z: seq<Extent>)
    requires i < |s.chain| && req.Legal() && Fits(s.chain, s.chain[i].off, req)
    requires IndexOf(s.chain, s.chain[i].off) == i
  {
    match req
    case Plain(n) => Carve(s.chain[i], n)
    case Aligned(n, a) =>
      var c, t := s.chain, Spot(s.chain, i, a);
      [AlignGap(c, i, t)] + Carve(Extent(t, c[i].len - (t - c[i].off), false), n)
  }

  lemma TakeChain(s: Layout, size: nat, req: Request, k: nat)
    requires Inv(s, size) && req.Legal() && k < |s.free| && Fits(s.chain, s.free[k], req)
    ensures var c, i := s.chain, IndexOf(s.chain, s.free[k]);
            && FreeAt(c, i) && c[i].off == s.free[k]
            && c == c[..TakeFrom(s, req, i)] + c[TakeFrom(s, req, i)..i + 1] + c[i + 1..]
            && Take(s, req, k).chain == c[..TakeFrom(s, req, i)] + TakeInto(s, req, i) + c[i + 1..]
  {
    hide Align, Split, Carve, Coalesced, Sound, AlignFrom, AlignGap, Spot;
    var c, i := s.chain, IndexOf(s.chain, s.free[k]);
    FreeListed(s, size, k);
    match req
    case Plain(n) =>
      SplitChain(s, i, n);
      assert c[i..i + 1] == [c[i]];
      assert c == c[..i] + c[i..i + 1] + c[i + 1..];
    case Aligned(n, a) =>
      var t := Spot(c, i, a);
      AlignSplitChain(s, i, t, n);
      assert TakeFrom(s, req, i) == AlignFrom(c, i, t);
  }

  /** The used blocks of the changed stretch survive in what it becomes. */
  lemma TakeIntoSurvives(s: Layout, size: nat, req: Request, i: nat)
    requires Inv(s, size) && req.Legal() && FreeAt(s.chain, i)
    requires IndexOf(s.chain, s.chain[i].off) == i && Fits(s.chain, s.chain[i].off, req)
    ensures var z := TakeInto(s, req, i);
            forall e :: e in s.chain[TakeFrom(s, req, i)..i + 1] && e.used ==> Survives(e, z)
  {
    var c, z, m := s.chain, TakeInto(s, req, i), TakeFrom(s, req, i);
    forall e | e in c[m..i + 1] && e.used ensures Survives(e, z) {
      var j :| m <= j < i + 1 && c[j] == e;
      assert j == m == i - 1;
      assert z[0] in z;
    }
  }

  /** A successful request returns a block of at least the requested size. */
  lemma AllocGrants(s: Layout, size: nat, req: Request)
    requires Inv(s, size) && req.Legal() && Allocated(s, req) != 0
    ensures exists f :: f in Alloc(s, req).chain && f.used && f.off == Allocated(s, req) && f.len >= req.n
  {
    var k := FirstFit(s, req, 0);
    TakeChain(s, size, req, k);
    var z := TakeInto(s, req, IndexOf(s.chain, s.free[k]));
    var f := z[if req.Plain? then 0 else 1];
    assert f in z;
  }

  /** Every block that was live keeps its address and does not shrink. */
  lemma AllocSpares(s: Layout, size: nat, req: Request)
    requires Inv(s, size) && req.Legal()
    ensures forall e :: e in s.chain && e.used ==> Survives(e, Alloc(s, req).chain)
  {
    hide Sound, Coalesced, TakeInto, TakeFrom, Take, FirstFit;
    var k := FirstFit(s, req, 0);
    var c := s.chain;
    if k < |s.free| {
      var i := IndexOf(c, s.free[k]);
      var m := TakeFrom(s, req, i);
      TakeChain(s, size, req, k);
      TakeIntoSurvives(s, size, req, i);
      SurvivesEdit(c[..m], c[m..i + 1], c[i + 1..], TakeInto(s, req, i));
    }
  }

  /** The returned address is new, aligned as requested, and the only one added. */
  lemma AllocFresh(s: Layout, size: nat, req: Request)
    requires Inv(s, size) && req.Legal() && Allocated(s, req) != 0
    ensures Alloc(s, req).used == [Allocated(s, req)] + s.used && Allocated(s, req) !in s.used
    ensures req.Aligned? ==> Allocated(s, req) % req.alignment == 0
  {
    hide Sound, Coalesced, Without;
    var k := FirstFit(s, req, 0);
    var i := IndexOf(s.chain, s.free[k]);
    FreeListed(s, size, k);
    OnItsList(s, size, i);
    if req.Aligned? {
      SpotAligned(s.chain, i, req.alignment);
      InsideIsFresh(s, size, i, Spot(s.chain, i, req.alignment));
    }
  }

  lemma SpotAligned(c: seq<Extent>, i: nat, alignment: nat)
    requires i < |c| && alignment > 0
    ensures Spot(c, i, alignment) % alignment == 0
  {
    var x := c[i].off;
    var up := NextMultiple(x, alignment);
    NextMultipleAbove(x, alignment);
    if i == 0 { BumpMod(up - x, alignment, x); }
  }

  /** Payloads of different blocks share no byte. */
  lemma PayloadsDisjoint(s: Layout, size: nat, e: Extent, f: Extent)
    requires Inv(s, size) && e in s.chain && f in s.chain && e != f
    ensures e.off + e.len <= f.off - HEADER || f.off + f.len <= e.off - HEADER
  {
    var i :| 0 <= i < |s.chain| && s.chain[i] == e;
    var j :| 0 <= j < |s.chain| && s.chain[j] == f;
    TilesBounds(s.chain, size);
    assert i < j || j < i;
  }

  /** NULL is returned exactly when no free block passes the test. */
  lemma NullExactly(s: Layout, size: nat, req: Request)
    requires Inv(s, size) && req.Legal()
    ensures Allocated(s, req) == 0 <==>
            forall e :: e in s.chain && !e.used ==> !Fits(s.chain, e.off, req)
    ensures Allocated(s, req) == 0 ==> Alloc(s, req) == s
  {
    TilesBounds(s.chain, size);
    var k := FirstFit(s, req, 0);
    if k < |s.free| {
      FreeListed(s, size, k);
      assert s.chain[IndexOf(s.chain, s.free[k])] in s.chain;
    } else {
      forall e | e in s.chain && !e.used ensures !Fits(s.chain, e.off, req) {
        var i :| 0 <= i < |s.chain| && s.chain[i] == e;
        OnItsList(s, size, i);
        var m :| 0 <= m < |s.free| && s.free[m] == e.off;
      }
    }
  }

  /** A plain request fails exactly when every free block is smaller than it. */
  lemma PlainNullExactly(s: Layout, size: nat, n: nat)
    requires Inv(s, size) && n > 0
    ensures Allocated(s, Plain(n)) == 0 <==> forall e :: e in s.chain && !e.used ==> e.len < n
  {
    TilesBounds(s.chain, size);
    NullExactly(s, size, Plain(n));
    forall e | e in s.chain && !e.used ensures Fits(s.chain, e.off, Plain(n)) <==> e.len >= n {
      var i :| 0 <= i < |s.chain| && s.chain[i] == e;
      assert IndexOf(s.chain, e.off) == i;
    }
  }

  // ------------------------------------------------------------------ what a free gives

  /** Freeing removes exactly that block from the live ones; the others do not change at all. */
  lemma ReleaseServes(s: Layout, size: nat, i: nat)
    requires Inv(s, size) && i < |s.chain| && s.chain[i].used
    ensures forall e: Extent :: e.used ==> (e in Release(s, i).chain <==> e in s.chain && e != s.chain[i])
  {
    hide Tiles, Lists, Coalesced, Joined, Without, ReleaseLo, ReleaseHi;
    var c, d, lo, hi := s.chain, Release(s, i).chain, ReleaseLo(s.chain, i), ReleaseHi(s.chain, i);
    ThreeParts(c, lo, hi);
    forall e: Extent | e.used ensures e in d <==> e in c && e != c[i] {
      ReleaseMiddle(c, size, i, e);
      InParts(c[..lo], c[lo..hi], c[hi..], e);
      InParts(c[..lo], [d[lo]], c[hi..], e);
    }
  }

  lemma InParts(a: seq<Extent>, y: seq<Extent>, b: seq<Extent>, e: Extent)
    ensures e in a + y + b <==> e in a || e in y || e in b
  {}

  lemma ReleaseMiddle(c: seq<Extent>, size: nat, i: nat, e: Extent)
    requires Tiles(c, size) && i < |c| && c[i].used && e.used
    ensures e in c[ReleaseLo(c, i)..ReleaseHi(c, i)] <==> e == c[i]
    ensures e == c[i] ==> e !in c[..ReleaseLo(c, i)] && e !in c[ReleaseHi(c, i)..]
  {
    var lo, hi := ReleaseLo(c, i), ReleaseHi(c, i);
    TilesBounds(c, size);
    assert c[lo..hi][i - lo] == c[i];
  }

  // ------------------------------------------------------------------------ conservation

  function Total(c: seq<Extent>): nat {
    if c == [] then 0 else c[0].len + HEADER + Total(c[1..])
  }

  /** The sizes of all blocks and headers add up to the size of the heap. */
  lemma {:induction false} BytesConserved(c: seq<Extent>, from: nat, to: nat)
    requires Spans(c, from, to)
    ensures from + Total(c) == to + HEADER
  {
    if |c| > 1 {
      assert c[1].off == c[0].off + c[0].len + HEADER;
      BytesConserved(c[1..], c[1].off, to);
    }
  }

  // --------------------------------------------------------------------------- histories

  datatype Op = Alloc1(req: Request) | Free1(x: nat)

  function Step(s: Layout, op: Op): Layout
    requires op.Alloc1? ==> op.req.Legal()
  {
    match op
    case Alloc1(req) => Alloc(s, req)
    case Free1(x) =>
      var i := IndexOf(s.chain, x);
      if i < |s.chain| && s.chain[i].used then Release(s, i) else s
  }

  ghost predicate LegalOps(ops: seq<Op>) {
    forall op :: op in ops && op.Alloc1? ==> op.req.Legal()
  }

  function Run(s: Layout, ops: seq<Op>): Layout
    requires LegalOps(ops)
    decreases |ops|
  {
    if ops == [] then s else Run(Step(s, ops[0]), ops[1..])
  }

  lemma StepKeeps(s: Layout, size: nat, op: Op)
    requires Inv(s, size) && (op.Alloc1? ==> op.req.Legal())
    ensures Inv(Step(s, op), size)
  {
    match op
    case Alloc1(req) => AllocKeeps(s, size, req);
    case Free1(x) =>
      var i := IndexOf(s.chain, x);
      if i < |s.chain| && s.chain[i].used { ReleaseKeeps(s, size, i); }
  }

  /** Every history from a fresh heap keeps the full invariant and every byte. */
  lemma {:induction false} RunKeeps(s: Layout, size: nat, ops: seq<Op>)
    requires Inv(s, size) && LegalOps(ops)
    ensures Inv(Run(s, ops), size)
    ensures Total(Run(s, ops).chain) == size
    decreases |ops|
  {
    if ops == [] {
      BytesConserved(s.chain, START, size);
    } else {
      StepKeeps(s, size, ops[0]);
      RunKeeps(Step(s, ops[0]), size, ops[1..]);
    }
  }

  lemma CreatedInv(size: nat)
    requires size > START
    ensures Inv(Created(size), size)
  {
    HasBlockSmall(Created(size).chain[0], Created(size).chain[0]);
  }

  lemma OnlyOne(l: seq<nat>, x: nat)
    requires Distinct(l) && x in l && forall k :: 0 <= k < |l| ==> l[k] == x
    ensures l == [x]
  {
    if |l| > 1 {
      TwoDiffer(l);
      assert false;
    }
  }

  lemma TwoDiffer(l: seq<nat>)
    requires Distinct(l) && |l| > 1
    ensures l[0] != l[1]
  {}

  lemma TwoUsed(c: seq<Extent>)
    requires Coalesced(c) && |c| > 1
    ensures c[0].used || c[1].used
  {}

  /** With nothing live, the heap is the one HeapCreate made: one free block. */
  lemma NothingLive(s: Layout, size: nat)
    requires Inv(s, size) && s.used == []
    ensures size > START && s == Created(size)
  {
    var c := s.chain;
    forall i | 0 <= i < |c| ensures !c[i].used { OnItsList(s, size, i); }
    if |c| > 1 {
      TwoUsed(c);
      assert false;
    }
    assert c == [Extent(START, size - HEADER, false)];
    OnItsList(s, size, 0);
    forall k | 0 <= k < |s.free| ensures s.free[k] == START { FreeListed(s, size, k); }
    OnlyOne(s.free, START);
  }

  function Frees(xs: seq<nat>): (ops: seq<Op>)
    ensures |ops| == |xs| && LegalOps(ops)
    ensures forall i :: 0 <= i < |xs| ==> ops[i] == Free1(xs[i])
  {
    seq(|xs|, i requires 0 <= i < |xs| => Free1(xs[i]))
  }

  /** Freeing every live block, in any order, restores the heap HeapCreate made. */
  lemma {:induction false} FreeAllRestores(s: Layout, size: nat, order: seq<nat>)
    requires Inv(s, size) && size > START
    requires multiset(order) == multiset(s.used)
    ensures Run(s, Frees(order)) == Created(size)
    decreases |order|
  {
    if order == [] {
      assert |multiset(s.used)| == 0;
      NothingLive(s, size);
    } else {
      var x := order[0];
      ReleaseHead(s, size, order);
      FreeAllRestores(Step(s, Free1(x)), size, order[1..]);
      assert Frees(order)[1..] == Frees(order[1..]);
    }
  }

  lemma ReleaseHead(s: Layout, size: nat, order: seq<nat>)
    requires Inv(s, size) && order != [] && multiset(order) == multiset(s.used)
    ensures Inv(Step(s, Free1(order[0])), size)
    ensures multiset(Step(s, Free1(order[0])).used) == multiset(order[1..])
  {
    var x := order[0];
    assert x in multiset(order);
    UsedListed(s, size, x);
    ReleaseKeeps(s, size, IndexOf(s.chain, x));
    WithoutMultiset(s.used, x);
    assert order == [x] + order[1..];
  }

  lemma {:induction false} WithoutMultiset(l: seq<nat>, x: nat)
    requires x in l
    ensures multiset(Without(l, x)) == multiset(l) - multiset{x}
  {
    assert l == [l[0]] + l[1..];
    if l[0] != x {
      WithoutMultiset(l[1..], x);
    }
  }

  /** The same from a fresh heap after any history of plain and aligned requests and frees. */
  lemma HistoryThenFreeAll(size: nat, ops: seq<Op>, order: seq<nat>)
    requires size > START && LegalOps(ops)
    requires multiset(order) == multiset(Run(Created(size), ops).used)
    ensures Run(Run(Created(size), ops), Frees(order)) == Created(size)
  {
    CreatedInv(size);
    RunKeeps(Created(size), size, ops);
    FreeAllRestores(Run(Created(size), ops), size, order);
  }

  // ------------------------------------------------- free blocks below the minimal size

  /** Every free block (every block, when `all`) has at least MINIMAL_FREE_BLOCK_SIZE bytes. */
  ghost predicate Roomy(c: seq<Extent>, all: bool) {
    forall i :: 0 <= i < |c| && (all || !c[i].used) ==> c[i].len >= MIN_FREE
  }

  lemma RoomyParts(a: seq<Extent>, y: seq<Extent>, b: seq<Extent>, all: bool)
    ensures Roomy(a + y + b, all) <==> Roomy(a, all) && Roomy(y, all) && Roomy(b, all)
  {
    var c := a + y + b;
    if Roomy(c, all) {
      forall i | 0 <= i < |a| && (all || !a[i].used) ensures a[i].len >= MIN_FREE { assert c[i] == a[i]; }
      forall i | 0 <= i < |y| && (all || !y[i].used) ensures y[i].len >= MIN_FREE { assert c[|a| + i] == y[i]; }
      forall i | 0 <= i < |b| && (all || !b[i].used) ensures b[i].len >= MIN_FREE {
        assert c[|a| + |y| + i] == b[i];
      }
    }
  }

  lemma TakeIntoRoomy(s: Layout, size: nat, req: Request, i: nat, all: bool)
    requires Inv(s, size) && req.Legal() && FreeAt(s.chain, i)
    requires IndexOf(s.chain, s.chain[i].off) == i && Fits(s.chain, s.chain[i].off, req)
    requires Roomy(s.chain, all) && (all ==> req.n >= MIN_FREE)
    ensures Roomy(TakeInto(s, req, i), all)
  {
    if i > 0 { FreeIsFenced(s.chain, i); }
  }

  /** Allocation never leaves a free block below the minimal size; when the request is of
      minimal size too, it leaves no small block at all. */
  lemma AllocRoomy(s: Layout, size: nat, req: Request, all: bool)
    requires Inv(s, size) && req.Legal() && Roomy(s.chain, all) && (all ==> req.n >= MIN_FREE)
    ensures Roomy(Alloc(s, req).chain, all)
  {
    var k := FirstFit(s, req, 0);
    if k < |s.free| {
      var c, i := s.chain, IndexOf(s.chain, s.free[k]);
      var m, z := TakeFrom(s, req, i), TakeInto(s, req, i);
      TakeChain(s, size, req, k);
      RoomyParts(c[..m], c[m..i + 1], c[i + 1..], all);
      TakeIntoRoomy(s, size, req, i, all);
      RoomyParts(c[..m], z, c[i + 1..], all);
    }
  }

  lemma RoomyOne(e: Extent)
    ensures Roomy([e], false) <==> e.used || e.len >= MIN_FREE
  {
    assert [e][0] == e;
  }

  lemma RoomyFree(c: seq<Extent>, i: int)
    requires Roomy(c, false)
    ensures FreeAt(c, i) ==> c[i].len >= MIN_FREE
  {}

  /** Freeing does exactly when the freed block is small and has no free neighbour. */
  lemma ReleaseRoomyExactly(s: Layout, size: nat, i: nat)
    requires Inv(s, size) && i < |s.chain| && s.chain[i].used && Roomy(s.chain, false)
    ensures Roomy(Release(s, i).chain, false) <==>
            s.chain[i].len >= MIN_FREE || FreeAt(s.chain, i - 1) || FreeAt(s.chain, i + 1)
  {
    hide Sound, Coalesced, Without, Roomy;
    var c, d, lo, hi := s.chain, Release(s, i).chain, ReleaseLo(s.chain, i), ReleaseHi(s.chain, i);
    assert c == c[..lo] + c[lo..hi] + c[hi..];
    RoomyParts(c[..lo], c[lo..hi], c[hi..], false);
    RoomyParts(c[..lo], [d[lo]], c[hi..], false);
    RoomyOne(d[lo]);
    RoomyFree(c, i - 1);
    RoomyFree(c, i + 1);
  }

  /** A plain request served from a single free block at the end of the chain. */
  lemma LastBlockSplit(s: Layout, n: nat)
    requires |s.chain| > 0 && n > 0
    requires var i := |s.chain| - 1;
             && s.free == [s.chain[i].off] && s.chain[i].len >= n + HEADER + MIN_FREE
             && IndexOf(s.chain, s.chain[i].off) == i
    ensures var i := |s.chain| - 1;
            var z := Carve(s.chain[i], n);
            Alloc(s, Plain(n)) == Layout(s.chain[..i] + z, [z[1].off], [s.chain[i].off] + s.used)
  {
    var e := s.chain[|s.chain| - 1];
    var l := [Carve(e, n)[1].off, e.off];
    assert FirstFit(s, Plain(n), 0) == 0;
    assert [l[0]] + s.free == l && l[1..] == [e.off];
    assert Without(l[1..], e.off) == [] && Without(l, e.off) == [l[0]];
  }

  lemma RunCons(s: Layout, op: Op, rest: seq<Op>)
    requires (op.Alloc1? ==> op.req.Legal()) && LegalOps(rest)
    ensures LegalOps([op] + rest) && Run(s, [op] + rest) == Run(Step(s, op), rest)
  {
    assert ([op] + rest)[1..] == rest;
  }

  /** The heap after two one-byte requests. */
  function TwoSmall(size: nat): Layout
    requires size >= 4096
  {
    Layout([Extent(24, 1, true), Extent(49, 1, true), Extent(74, size - 74, false)], [74], [49, 24])
  }

  lemma TwoSmallReached(size: nat)
    requires size >= 4096
    ensures Alloc(Alloc(Created(size), Plain(1)), Plain(1)) == TwoSmall(size)
  {
    var s1 := Layout([Extent(24, 1, true), Extent(49, size - 49, false)], [49], [24]);
    LastBlockSplit(Created(size), 1);
    assert Alloc(Created(size), Plain(1)) == s1;
    LastBlockSplit(s1, 1);
    assert [s1.chain[1].off] + s1.used == [49, 24];
    assert s1.chain[..1] + Carve(s1.chain[1], 1) == TwoSmall(size).chain;
  }

  /** So the minimal size is not an invariant: two one-byte requests and a free break it. */
  lemma SmallFreeBlock(size: nat)
    requires size >= 4096
    ensures var ops := [Alloc1(Plain(1))] + ([Alloc1(Plain(1))] + [Free1(START)]);
            LegalOps(ops) && !Roomy(Run(Created(size), ops).chain, false)
  {
    var s0, one, s2, f := Created(size), Alloc1(Plain(1)), TwoSmall(size), Free1(START);
    TwoSmallReached(size);
    RunCons(s0, one, [one] + [f]);
    RunCons(Step(s0, one), one, [f]);
    RunCons(s2, f, []);
    assert [f] == [f] + [];
    assert Release(s2, 0).chain[0] == Extent(START, 1, false);
  }

  /** Blocks that become one are of minimal size together if they were each. */
  lemma JoinedRoomy(c: seq<Extent>, lo: nat, hi: nat)
    requires lo < hi <= |c| && Roomy(c, true)
    ensures Roomy([Extent(c[lo].off, Joined(c, lo, hi), false)], true)
  {
    JoinedAtLeast(c, lo, hi);
  }

  lemma {:induction false} JoinedAtLeast(c: seq<Extent>, lo: nat, hi: nat)
    requires lo < hi <= |c|
    ensures Joined(c, lo, hi) >= c[lo].len
    decreases hi
  {
    if hi > lo + 1 { JoinedAtLeast(c, lo, hi - 1); }
  }

  lemma StepRoomy(s: Layout, size: nat, op: Op)
    requires Inv(s, size) && Roomy(s.chain, true)
    requires op.Alloc1? ==> op.req.Legal() && op.req.n >= MIN_FREE
    ensures Roomy(Step(s, op).chain, true)
  {
    hide Inv, Alloc, Without, Roomy, Joined;
    match op
    case Alloc1(req) => AllocRoomy(s, size, req, true);
    case Free1(x) =>
      var c, i := s.chain, IndexOf(s.chain, x);
      if i < |c| && c[i].used {
        var d, lo, hi := Release(s, i).chain, ReleaseLo(c, i), ReleaseHi(c, i);
        ThreeParts(c, lo, hi);
        RoomyParts(c[..lo], c[lo..hi], c[hi..], true);
        RoomyParts(c[..lo], [d[lo]], c[hi..], true);
        JoinedRoomy(c, lo, hi);
      }
  }

  /** With every request of at least the minimal size it is one. */
  lemma {:induction false} RunRoomy(s: Layout, size: nat, ops: seq<Op>)
    requires Inv(s, size) && Roomy(s.chain, true) && LegalOps(ops)
    requires forall op :: op in ops && op.Alloc1? ==> op.req.n >= MIN_FREE
    ensures Roomy(Run(s, ops).chain, true)
    decreases |ops|
  {
    if ops != [] {
      assert ops[0] in ops;
      StepKeeps(s, size, ops[0]);
      StepRoomy(s, size, ops[0]);
      RunRoomy(Step(s, ops[0]), size, ops[1..]);
    }
  }
}
