/** What the header writes of src/mem.c do to the layout the headers show. */
module HeapSurgery {
  import opened Bytes
  import opened HeapLayout
  import opened HeapHeaders
  import opened HeapRuns

  /** Pushing x on list l: l grows by x, any other list and all physical fields stay. */
  lemma FrontShown(h: map<nat, Block>, l: seq<nat>, other: seq<nat>, x: nat)
    requires Linked(h, l) && Linked(h, other) && Distinct(l) && x in h && 0 !in h
    requires x !in l && x !in other && forall y :: y in l ==> y !in other
    ensures At(l, 0) != 0 ==> At(l, 0) in h && At(l, 0) != x
    ensures Linked(FrontMap(h, At(l, 0), x), [x] + l) && Linked(FrontMap(h, At(l, 0), x), other)
    ensures SamePhys(h, FrontMap(h, At(l, 0), x))
  {
    assert l != [] ==> l[0] in l;
    FrontLinked(h, l, x);
    LinkedSame(h, FrontMap(h, At(l, 0), x), other);
  }

  /** Taking x out of list l. */
  lemma OutShown(h: map<nat, Block>, l: seq<nat>, other: seq<nat>, x: nat)
    requires Linked(h, l) && Linked(h, other) && Distinct(l) && x in l && 0 !in h
    requires forall y :: y in l ==> y !in other
    ensures x in h && h[x].vnext != x && h[x].vprev != x
    ensures (h[x].vnext != 0 ==> h[x].vnext in h) && (h[x].vprev != 0 ==> h[x].vprev in h)
    ensures Linked(OutMap(h, x), Without(l, x)) && Linked(OutMap(h, x), other)
    ensures SamePhys(h, OutMap(h, x))
    ensures At(Without(l, x), 0) == if At(l, 0) == x then h[x].vnext else At(l, 0)
  {
    var k := Neighbours(h, l, x);
    OutLinked(h, l, k);
    LinkedSame(h, OutMap(h, x), other);
    WithoutIndex(l, k);
  }

  /** Linking and unlinking only touch list links. */
  lemma OutPhys(h: map<nat, Block>, x: nat)
    ensures SamePhys(h, OutMap(h, x))
  {}

  lemma FrontPhys(h: map<nat, Block>, head: nat, x: nat)
    ensures SamePhys(h, FrontMap(h, head, x))
  {}

  // -------------------------------------------------------------------- HeappSplit

  // A free block is created behind the first n bytes of block x; its header, at x + n + HEADER,
  // is among those in h already but has no meaning yet.

  ghost function NewMap(h: map<nat, Block>, x: nat, n: nat): (g: map<nat, Block>)
    requires Val(h, x, Size) >= n + HEADER
    ensures g.Keys == h.Keys
  {
    var u := x + n + HEADER;
    var h1 := Upd(Upd(h, u, State, FREE), u, Size, Val(h, x, Size) - n - HEADER);
    Upd(Upd(h1, u, PPrev, x), u, PNext, Val(h, x, PNext))
  }

  ghost function JoinMap(h: map<nat, Block>, x: nat, n: nat): (g: map<nat, Block>)
    ensures g.Keys == h.Keys
  {
    var u, next := x + n + HEADER, Val(h, x, PNext);
    var h1 := if next != 0 then Upd(h, next, PPrev, u) else h;
    Upd(Upd(h1, x, PNext, u), x, Size, n)
  }

  ghost function CutMap(h: map<nat, Block>, head: nat, x: nat, n: nat): (g: map<nat, Block>)
    requires Val(h, x, Size) >= n + HEADER
    ensures g.Keys == h.Keys
  {
    JoinMap(FrontMap(NewMap(h, x, n), head, x + n + HEADER), x, n)
  }

  /** Blocks lie in order, each header behind the payload before it. */
  ghost predicate Apart(c: seq<Extent>) {
    && (forall i :: 0 <= i < |c| ==> c[i].off >= HEADER && c[i].len > 0)
    && (forall i, j :: 0 <= i < j < |c| ==> c[i].off + c[i].len + HEADER <= c[j].off)
  }

  lemma SoundApart(s: Layout, size: nat)
    requires Sound(s, size)
    ensures Apart(s.chain)
  {
    TilesBounds(s.chain, size);
  }

  /** What the headers of block i and its neighbours say when the headers show the chain. */
  lemma HeaderOf(h: map<nat, Block>, c: seq<Extent>, i: nat)
    requires Apart(c) && Phys(h, c) && i < |c|
    ensures Shows(h, c[i], OffAt(c, i - 1), OffAt(c, i + 1))
    ensures i > 0 ==> c[i - 1].off in h && h[c[i - 1].off].pnext == c[i].off
    ensures i + 1 < |c| ==> c[i + 1].off in h && h[c[i + 1].off].pprev == c[i].off
    ensures OffAt(c, i + 1) == 0 <==> i + 1 == |c|
    ensures OffAt(c, i - 1) == 0 <==> i == 0
  {
    assert ChainAt(h, c, i);
    if i > 0 { assert ChainAt(h, c, i - 1); }
    if i + 1 < |c| { assert ChainAt(h, c, i + 1); }
  }

  lemma HeadersOf(h: map<nat, Block>, c: seq<Extent>)
    requires Phys(h, c)
    ensures forall k :: 0 <= k < |c| ==> c[k].off in h
  {
    forall k | 0 <= k < |c| ensures c[k].off in h { assert ChainAt(h, c, k); }
  }

  /** Physical fields of y after the cut. */
  ghost predicate CutAt(h: map<nat, Block>, g: map<nat, Block>, x: nat, n: nat, y: nat)
    requires x in h && y in h && h[x].size >= n + HEADER
  {
    var u := x + n + HEADER;
    && y in g
    && g[y].state == (if y == u then FREE else h[y].state)
    && g[y].size == (if y == u then h[x].size - n - HEADER else if y == x then n else h[y].size)
    && g[y].pprev == (if y == u then x else if y == h[x].pnext && y != 0 then u else h[y].pprev)
    && g[y].pnext == (if y == u then h[x].pnext else if y == x then u else h[y].pnext)
  }

  lemma CutVals(h: map<nat, Block>, head: nat, x: nat, n: nat, y: nat)
    requires x in h && y in h && x + n + HEADER in h && h[x].size >= n + HEADER
    requires h[x].pnext != x && h[x].pnext != x + n + HEADER
    ensures CutAt(h, CutMap(h, head, x, n), x, n, y)
  {
    hide FrontMap;
    FrontPhys(NewMap(h, x, n), head, x + n + HEADER);
  }

  lemma CutRejoined(h: map<nat, Block>, g: map<nat, Block>, c: seq<Extent>, i: nat, n: nat)
    requires Apart(c) && Phys(h, c) && i < |c| && c[i].len > n + HEADER
    requires c[i].off in h && h[c[i].off].size == c[i].len && h[c[i].off].pnext == OffAt(c, i + 1)
    requires forall y :: y in h ==> CutAt(h, g, c[i].off, n, y)
    ensures Rejoined(h, g, c, i, i + 1, c[i].off, c[i].off + n + HEADER)
  {
    HeadersOf(h, c);
    HeaderOf(h, c, i);
    forall k | 0 <= k < |c| && k != i && k != i + 1 ensures SamePhysAt(h, g, c[k].off) {
      assert CutAt(h, g, c[i].off, n, c[k].off);
    }
    if i + 1 < |c| { assert CutAt(h, g, c[i].off, n, c[i + 1].off); }
  }

  lemma CutChain(h: map<nat, Block>, g: map<nat, Block>, c: seq<Extent>, i: nat, n: nat, z: seq<Extent>)
    requires Apart(c) && Phys(h, c) && FreeAt(c, i) && c[i].len > n + HEADER
    requires c[i].off in h && h[c[i].off].size == c[i].len && h[c[i].off].pnext == OffAt(c, i + 1)
    requires c[i].off + n + HEADER in h
    requires forall y :: y in h ==> CutAt(h, g, c[i].off, n, y)
    requires z == [Extent(c[i].off, n, false), Extent(c[i].off + n + HEADER, c[i].len - n - HEADER, false)]
    ensures Phys(g, c[..i] + z + c[i + 1..])
  {
    hide Phys, Rejoined;
    var e, d := c[i], c[..i] + z + c[i + 1..];
    HeaderOf(h, c, i);
    CutRejoined(h, g, c, i, n);
    assert ChainAt(g, d, i) by {
      assert CutAt(h, g, e.off, n, e.off);
      assert d[i] == z[0] && OffAt(d, i - 1) == OffAt(c, i - 1) && OffAt(d, i + 1) == z[1].off;
    }
    assert ChainAt(g, d, i + 1) by {
      assert CutAt(h, g, e.off, n, z[1].off);
      assert d[i + 1] == z[1] && OffAt(d, i) == e.off && OffAt(d, i + 2) == OffAt(c, i + 1);
    }
    PhysSplice(h, g, c, i, i + 1, z);
  }

  /** Only physical fields changed. */
  ghost predicate PhysOnly(h: map<nat, Block>, g: map<nat, Block>) {
    && g.Keys == h.Keys
    && forall y :: y in h ==> g[y].vprev == h[y].vprev && g[y].vnext == h[y].vnext
  }

  lemma LinkedPhysOnly(h: map<nat, Block>, g: map<nat, Block>, l: seq<nat>)
    requires Linked(h, l) && PhysOnly(h, g)
    ensures Linked(g, l)
  {
    LinkedSame(h, g, l);
  }

  lemma PhysSame(h: map<nat, Block>, g: map<nat, Block>, c: seq<Extent>)
    requires Phys(h, c) && SamePhys(h, g)
    ensures Phys(g, c)
  {
    forall i | 0 <= i < |c| ensures ChainAt(g, c, i) { assert ChainAt(h, c, i); }
  }

  /** Both lists are linked, and no block is on both. */
  ghost predicate Threaded(h: map<nat, Block>, free: seq<nat>, used: seq<nat>) {
    && Linked(h, free) && Linked(h, used) && 0 !in h
    && Distinct(free) && Distinct(used)
    && (forall x :: x in free ==> x !in used)
  }

  /** Writing a physical field leaves the lists alone. */
  lemma UpdThreaded(h: map<nat, Block>, free: seq<nat>, used: seq<nat>, x: nat, f: Field, v: nat)
    requires Threaded(h, free, used) && !f.VPrev? && !f.VNext?
    ensures Threaded(Upd(h, x, f, v), free, used)
  {
    LinkedPhysOnly(h, Upd(h, x, f, v), free);
    LinkedPhysOnly(h, Upd(h, x, f, v), used);
  }

  lemma FrontFree(h: map<nat, Block>, free: seq<nat>, used: seq<nat>, x: nat)
    requires Threaded(h, free, used) && x in h && x !in free && x !in used
    ensures At(free, 0) != 0 ==> At(free, 0) in h && At(free, 0) != x
    ensures Threaded(FrontMap(h, At(free, 0), x), [x] + free, used)
    ensures SamePhys(h, FrontMap(h, At(free, 0), x))
  {
    FrontShown(h, free, used, x);
  }

  lemma FrontUsed(h: map<nat, Block>, free: seq<nat>, used: seq<nat>, x: nat)
    requires Threaded(h, free, used) && x in h && x !in free && x !in used
    ensures At(used, 0) != 0 ==> At(used, 0) in h && At(used, 0) != x
    ensures Threaded(FrontMap(h, At(used, 0), x), free, [x] + used)
    ensures SamePhys(h, FrontMap(h, At(used, 0), x))
  {
    FrontShown(h, used, free, x);
  }

  /** What HeappBlockUnlink needs of the neighbours of x. */
  ghost predicate Unlinkable(h: map<nat, Block>, x: nat) {
    && x in h && h[x].vnext != x && h[x].vprev != x
    && (h[x].vnext != 0 ==> h[x].vnext in h)
    && (h[x].vprev != 0 ==> h[x].vprev in h)
  }

  lemma OutFree(h: map<nat, Block>, free: seq<nat>, used: seq<nat>, x: nat)
    requires Threaded(h, free, used) && x in free
    ensures Unlinkable(h, x) && SamePhys(h, OutMap(h, x))
    ensures Threaded(OutMap(h, x), Without(free, x), used)
    ensures x !in Without(free, x) && x !in used
    ensures At(Without(free, x), 0) == if At(free, 0) == x then h[x].vnext else At(free, 0)
  {
    OutShown(h, free, used, x);
    WithoutMembers(free, x);
  }

  lemma OutUsed(h: map<nat, Block>, free: seq<nat>, used: seq<nat>, x: nat)
    requires Threaded(h, free, used) && x in used
    ensures Unlinkable(h, x) && SamePhys(h, OutMap(h, x))
    ensures Threaded(OutMap(h, x), free, Without(used, x))
    ensures x !in Without(used, x) && x !in free
    ensures At(Without(used, x), 0) == if At(used, 0) == x then h[x].vnext else At(used, 0)
  {
    OutShown(h, used, free, x);
    WithoutMembers(used, x);
  }

  lemma CutThreaded(h: map<nat, Block>, free: seq<nat>, used: seq<nat>, x: nat, n: nat)
    requires Threaded(h, free, used) && Val(h, x, Size) >= n + HEADER && x + n + HEADER in h
    requires x + n + HEADER !in free && x + n + HEADER !in used
    ensures Threaded(CutMap(h, At(free, 0), x, n), [x + n + HEADER] + free, used)
  {
    hide FrontMap, NewMap, JoinMap, Threaded;
    NewThreaded(h, free, used, x, n);
    FrontFree(NewMap(h, x, n), free, used, x + n + HEADER);
    JoinThreaded(FrontMap(NewMap(h, x, n), At(free, 0), x + n + HEADER), [x + n + HEADER] + free, used, x, n);
  }

  lemma NewThreaded(h: map<nat, Block>, free: seq<nat>, used: seq<nat>, x: nat, n: nat)
    requires Threaded(h, free, used) && Val(h, x, Size) >= n + HEADER
    ensures Threaded(NewMap(h, x, n), free, used)
  {
    LinkedPhysOnly(h, NewMap(h, x, n), free);
    LinkedPhysOnly(h, NewMap(h, x, n), used);
  }

  lemma JoinThreaded(h: map<nat, Block>, free: seq<nat>, used: seq<nat>, x: nat, n: nat)
    requires Threaded(h, free, used)
    ensures Threaded(JoinMap(h, x, n), free, used)
  {
    LinkedPhysOnly(h, JoinMap(h, x, n), free);
    LinkedPhysOnly(h, JoinMap(h, x, n), used);
  }

  /** The headers show the layout, and both lists are in order. */
  ghost predicate Rep(h: map<nat, Block>, s: Layout) {
    Phys(h, s.chain) && Threaded(h, s.free, s.used)
  }

  /** Cutting free block i after n bytes, seen in the headers. */
  lemma CutRep(h: map<nat, Block>, s: Layout, i: nat, n: nat)
    requires Apart(s.chain) && Rep(h, s) && FreeAt(s.chain, i) && s.chain[i].len > n + HEADER
    requires s.chain[i].off + n + HEADER in h
    requires s.chain[i].off + n + HEADER !in s.free && s.chain[i].off + n + HEADER !in s.used
    ensures Val(h, s.chain[i].off, Size) == s.chain[i].len
    ensures Rep(CutMap(h, At(s.free, 0), s.chain[i].off, n), Cut(s, i, n))
  {
    hide Threaded, Phys, CutMap, Apart;
    var c, e := s.chain, s.chain[i];
    HeaderOf(h, c, i);
    CutPhys(h, At(s.free, 0), c, i, n);
    CutThreaded(h, s.free, s.used, e.off, n);
    var z := [Extent(e.off, n, false), Extent(e.off + n + HEADER, e.len - n - HEADER, false)];
    assert Cut(s, i, n).chain == c[..i] + z + c[i + 1..];
  }

  lemma CutPhys(h: map<nat, Block>, head: nat, c: seq<Extent>, i: nat, n: nat)
    requires Apart(c) && Phys(h, c) && FreeAt(c, i) && c[i].len > n + HEADER
    requires c[i].off in h && h[c[i].off].size == c[i].len && h[c[i].off].pnext == OffAt(c, i + 1)
    requires c[i].off + n + HEADER in h
    ensures Phys(CutMap(h, head, c[i].off, n),
                 c[..i] + [Extent(c[i].off, n, false), Extent(c[i].off + n + HEADER, c[i].len - n - HEADER, false)]
                 + c[i + 1..])
  {
    hide CutMap, Phys, CutAt;
    var g := CutMap(h, head, c[i].off, n);
    forall y | y in h ensures CutAt(h, g, c[i].off, n, y) {
      CutVals(h, head, c[i].off, n, y);
    }
    CutChain(h, g, c, i, n,
             [Extent(c[i].off, n, false), Extent(c[i].off + n + HEADER, c[i].len - n - HEADER, false)]);
  }

  /** One more header changes nothing. */
  lemma AdoptRep(h: map<nat, Block>, s: Layout, u: nat, b: Block)
    requires Rep(h, s) && u !in h && u != 0
    ensures Rep(h[u := b], s)
  {
    var g := h[u := b];
    forall i | 0 <= i < |s.chain| ensures ChainAt(g, s.chain, i) { assert ChainAt(h, s.chain, i); }
    LinkedSame(h, g, s.free);
    LinkedSame(h, g, s.used);
  }

  /** What holds of the layout before and after a cut. */
  lemma CutFacts(s: Layout, size: nat, i: nat, n: nat)
    requires Sound(s, size) && FreeAt(s.chain, i) && n > 0 && s.chain[i].len > n + HEADER
    ensures var t, u := Cut(s, i, n), s.chain[i].off + n + HEADER;
            && Sound(t, size) && Apart(s.chain)
            && Offs(t.chain) == Offs(s.chain) + {u} && Separate(Offs(s.chain) + {u}, size)
            && u !in Offs(s.chain) && u !in s.free && u !in s.used
  {
    hide Sound, Cut, Apart, Separate;
    var u := s.chain[i].off + n + HEADER;
    CutSound(s, size, i, n);
    CutOffs(s, i, n);
    SoundTiles(Cut(s, i, n), size);
    ChainSeparate(Cut(s, i, n).chain, size);
    SoundApart(s, size);
    InsideIsFresh(s, size, i, u);
    InsideNoHeader(s.chain, i, u);
  }

  lemma SoundTiles(s: Layout, size: nat)
    requires Sound(s, size)
    ensures Tiles(s.chain, size)
  {}

  lemma InsideNoHeader(c: seq<Extent>, i: nat, u: nat)
    requires Apart(c) && i < |c| && c[i].off < u < c[i].off + c[i].len + HEADER
    ensures u !in Offs(c)
  {}

  lemma CutLists(s: Layout, i: nat, n: nat)
    requires i < |s.chain| && s.chain[i].len >= n + HEADER
    ensures At(Cut(s, i, n).free, 0) == s.chain[i].off + n + HEADER && Cut(s, i, n).used == s.used
  {}

  /** Between the two steps of HeappSplit. */
  lemma CutThere(s: Layout, i: nat, n: nat)
    requires FreeAt(s.chain, i) && s.chain[i].len >= n + HEADER
    ensures var t := Cut(s, i, n);
            && FreeAt(t.chain, i) && t.chain[i].off == s.chain[i].off
            && s.chain[i].off + n + HEADER in Offs(Claim(t, i).chain)
  {
    var c, t := s.chain, Cut(s, i, n);
    assert t.chain[i] == Extent(c[i].off, n, false);
    assert t.chain[i + 1].off == c[i].off + n + HEADER;
    ClaimOffs(t, i);
  }

  /** What the writes of a cut rely on. */
  lemma CutReady(h: map<nat, Block>, s: Layout, i: nat, n: nat)
    requires Apart(s.chain) && Rep(h, s) && i < |s.chain| && s.chain[i].len > n + HEADER
    requires s.chain[i].off + n + HEADER !in s.free
    ensures Val(h, s.chain[i].off, Size) == s.chain[i].len
    ensures var x, u := s.chain[i].off, s.chain[i].off + n + HEADER;
            && x in h && (Val(h, x, PNext) != 0 ==> Val(h, x, PNext) in h)
            && Val(FrontMap(NewMap(h, x, n), At(s.free, 0), u), x, PNext) == Val(h, x, PNext)
            && (At(s.free, 0) != 0 ==> At(s.free, 0) in h && At(s.free, 0) != u)
  {
    HeadersOf(h, s.chain);
    HeaderOf(h, s.chain, i);
    if s.free != [] { assert s.free[0] in s.free; }
  }

  // ------------------------------------------------------------ moving between the lists

  /** Moving free block x to the used list. */
  ghost function ClaimMap(h: map<nat, Block>, usedHead: nat, x: nat): map<nat, Block> {
    FrontMap(Upd(OutMap(h, x), x, State, USED), usedHead, x)
  }

  /** The chain after only the state of block i changed. */
  lemma StateChain(h: map<nat, Block>, g: map<nat, Block>, c: seq<Extent>, i: nat, used: bool)
    requires Apart(c) && Phys(h, c) && i < |c|
    requires SamePhys(Upd(h, c[i].off, State, if used then USED else FREE), g)
    ensures Phys(g, c[..i] + [c[i].(used := used)] + c[i + 1..])
  {
    var d := c[..i] + [c[i].(used := used)] + c[i + 1..];
    HeadersOf(h, c);
    forall k | 0 <= k < |d| ensures ChainAt(g, d, k) {
      assert ChainAt(h, c, k);
      assert OffAt(d, k - 1) == OffAt(c, k - 1) && OffAt(d, k + 1) == OffAt(c, k + 1);
    }
  }

  lemma SamePhysUpd(h: map<nat, Block>, g: map<nat, Block>, x: nat, f: Field, v: nat)
    requires SamePhys(h, g)
    ensures SamePhys(Upd(h, x, f, v), Upd(g, x, f, v))
  {}

  lemma SamePhysTrans(h: map<nat, Block>, g: map<nat, Block>, k: map<nat, Block>)
    requires SamePhys(h, g) && SamePhys(g, k)
    ensures SamePhys(h, k)
  {}

  lemma ClaimRep(h: map<nat, Block>, s: Layout, i: nat)
    requires Apart(s.chain) && Rep(h, s)
    requires i < |s.chain| && s.chain[i].off in s.free
    ensures Rep(ClaimMap(h, At(s.used, 0), s.chain[i].off), Claim(s, i))
  {
    hide Threaded, Phys, FrontMap, OutMap, Apart, Without, Upd, SamePhys;
    var x := s.chain[i].off;
    var free := Without(s.free, x);
    var h1 := OutMap(h, x);
    var h2 := Upd(h1, x, State, USED);
    var h3 := FrontMap(h2, At(s.used, 0), x);
    assert ClaimMap(h, At(s.used, 0), x) == h3;
    OutFree(h, s.free, s.used, x);
    UpdThreaded(h1, free, s.used, x, State, USED);
    FrontUsed(h2, free, s.used, x);
    SamePhysUpd(h, h1, x, State, USED);
    SamePhysTrans(Upd(h, x, State, USED), h2, h3);
    StateChain(h, h3, s.chain, i, true);
  }

  /** What the writes of a claim rely on. */
  lemma ClaimReady(h: map<nat, Block>, s: Layout, size: nat, i: nat)
    requires Sound(s, size) && Rep(h, s) && FreeAt(s.chain, i)
    ensures var x := s.chain[i].off;
            && Unlinkable(h, x) && x in s.free && Sound(Claim(s, i), size) && Apart(s.chain)
            && Offs(Claim(s, i).chain) == Offs(s.chain)
            && (At(s.used, 0) != 0 ==> At(s.used, 0) in h && At(s.used, 0) != x)
            && At(Without(s.free, x), 0) == (if At(s.free, 0) == x then h[x].vnext else At(s.free, 0))
            && At(Claim(s, i).free, 0) == At(Without(s.free, x), 0) && At(Claim(s, i).used, 0) == x
  {
    hide Sound, Threaded, Apart, Without, Offs, Unlinkable;
    var x := s.chain[i].off;
    OnItsList(s, size, i);
    ClaimSound(s, size, i);
    ClaimOffs(s, i);
    SoundApart(s, size);
    OutFree(h, s.free, s.used, x);
    UsedHead(h, s.free, s.used, x);
  }

  lemma UsedHead(h: map<nat, Block>, free: seq<nat>, used: seq<nat>, x: nat)
    requires Threaded(h, free, used) && x in free
    ensures At(used, 0) != 0 ==> At(used, 0) in h && At(used, 0) != x
  {
    if used != [] { assert used[0] in used; }
  }

  // ------------------------------------------------------------- moving a header

  /** The header of x becomes the header of t. */
  ghost function Rekey(h: map<nat, Block>, x: nat, t: nat): map<nat, Block>
    requires x in h
  {
    (h - {x})[t := h[x]]
  }

  lemma CopyStored(m: seq<byte>, r: seq<byte>, h: map<nat, Block>, x: nat, t: nat)
    requires Stored(m, h) && x in h && t !in h && Separate(h.Keys - {x} + {t}, |m|)
    requires |r| == |m| && r[t - HEADER..t] == m[x - HEADER..x]
    requires forall k :: 0 <= k < |m| && !(t - HEADER <= k < t) ==> r[k] == m[k]
    ensures Stored(r, Rekey(h, x, t)) && SameOutside(m, r, {t})
  {
    var g := Rekey(h, x, t);
    assert g.Keys == h.Keys - {x} + {t};
    forall y | y in g ensures Decode(r, y) == g[y] {
      if y == t {
        DecodeCopy(m, r, x, t);
        assert Decode(m, x) == h[x];
      } else {
        assert y < t || t < y;
        DecodeFrame(m, r, y);
        assert Decode(m, y) == h[y];
      }
    }
    forall k | 0 <= k < |m| && !InHeader({t}, k) ensures r[k] == m[k] {
      assert t in {t};
    }
  }

  /** Neighbours of x point to t, and x leaves the free list. */
  ghost function MoveOut(h: map<nat, Block>, x: nat, t: nat): (g: map<nat, Block>)
    ensures g.Keys == h.Keys
  {
    var prev, next := Val(h, x, PPrev), Val(h, x, PNext);
    var h1 := if next != 0 then Upd(h, next, PPrev, t) else h;
    OutMap(Upd(h1, prev, PNext, t), x)
  }

  /** Block t hands `gap` bytes to the block before it. */
  ghost function MoveSizes(h: map<nat, Block>, t: nat, gap: nat): (g: map<nat, Block>)
    requires t in h && h[t].size >= gap
    ensures g.Keys == h.Keys
  {
    var prev := Val(h, t, PPrev);
    var h1 := Upd(h, prev, Size, Val(h, prev, Size) + gap);
    Upd(h1, t, Size, Val(h1, t, Size) - gap)
  }

  lemma MoveOutSize(h: map<nat, Block>, x: nat, t: nat)
    requires x in h
    ensures MoveOut(h, x, t)[x].size == h[x].size
  {}

  /** HeappAlign when the gap goes to the previous block: free block x becomes block t. */
  ghost function MoveMap(h: map<nat, Block>, x: nat, t: nat): (g: map<nat, Block>)
    requires x in h && h[x].size >= t - x >= 0
  {
    MoveOutSize(h, x, t);
    MoveSizes(Rekey(MoveOut(h, x, t), x, t), t, t - x)
  }

  ghost predicate MoveAt(h: map<nat, Block>, g: map<nat, Block>, x: nat, t: nat, y: nat)
    requires x in h && (y in h || y == t) && h[x].size >= t - x >= 0
  {
    && y in g
    && var b := if y == t then h[x] else h[y];
      && g[y].state == b.state
      && g[y].size == (if y == t then b.size - (t - x) else if y == h[x].pprev then b.size + (t - x) else b.size)
      && g[y].pprev == (if y != t && y == h[x].pnext && y != 0 then t else b.pprev)
      && g[y].pnext == (if y != t && y == h[x].pprev then t else b.pnext)
  }

  lemma MoveVals(h: map<nat, Block>, x: nat, t: nat, y: nat)
    requires x in h && x < t && h[x].size >= t - x
    requires t !in h || t == x
    requires (y in h && y != x) || y == t
    requires h[x].pnext != x && h[x].pprev != x && h[x].pprev != t && h[x].pnext != t
    requires h[x].pnext != h[x].pprev && h[x].pprev in h && h[x].pprev != 0
    ensures MoveAt(h, MoveMap(h, x, t), x, t, y)
  {
    MoveOutVals(h, x, t, x);
    if y != t { MoveOutVals(h, x, t, y); }
    MoveOutVals(h, x, t, h[x].pprev);
    hide MoveOut;
  }

  lemma MoveOutVals(h: map<nat, Block>, x: nat, t: nat, y: nat)
    requires x in h && y in h && h[x].pnext != x && h[x].pprev != x && h[x].pprev in h && h[x].pnext != h[x].pprev
    ensures var g := MoveOut(h, x, t);
            && g[y].state == h[y].state && g[y].size == h[y].size
            && g[y].pprev == (if y == h[x].pnext && y != 0 then t else h[y].pprev)
            && g[y].pnext == (if y == h[x].pprev then t else h[y].pnext)
  {
    hide OutMap;
    var h1 := if h[x].pnext != 0 then Upd(h, h[x].pnext, PPrev, t) else h;
    OutPhys(Upd(h1, h[x].pprev, PNext, t), x);
  }

  lemma MoveRejoined(h: map<nat, Block>, g: map<nat, Block>, c: seq<Extent>, i: nat, t: nat)
    requires Apart(c) && Phys(h, c) && 0 < i && FreeAt(c, i) && c[i].off < t < c[i].off + c[i].len
    requires c[i].off in h && h[c[i].off].size == c[i].len
    requires h[c[i].off].pprev == c[i - 1].off && h[c[i].off].pnext == OffAt(c, i + 1)
    requires forall y :: (y in h && y != c[i].off) || y == t ==> MoveAt(h, g, c[i].off, t, y)
    ensures Rejoined(h, g, c, i - 1, i + 1, c[i - 1].off, t)
  {
    hide Phys;
    HeadersOf(h, c);
    HeaderOf(h, c, i);
    HeaderOf(h, c, i - 1);
    forall k | 0 <= k < |c| && k != i ensures MoveAt(h, g, c[i].off, t, c[k].off) {}
  }

  lemma MoveChain(h: map<nat, Block>, g: map<nat, Block>, c: seq<Extent>, i: nat, t: nat, z: seq<Extent>)
    requires Apart(c) && Phys(h, c) && 0 < i && FreeAt(c, i) && c[i].off < t < c[i].off + c[i].len
    requires c[i].off in h && h[c[i].off].size == c[i].len
    requires h[c[i].off].pprev == c[i - 1].off && h[c[i].off].pnext == OffAt(c, i + 1)
    requires forall y :: (y in h && y != c[i].off) || y == t ==> MoveAt(h, g, c[i].off, t, y)
    requires z == [c[i - 1].(len := c[i - 1].len + (t - c[i].off)), Extent(t, c[i].len - (t - c[i].off), false)]
    ensures Phys(g, c[..i - 1] + z + c[i + 1..])
  {
    hide Phys, Rejoined;
    var d, x := c[..i - 1] + z + c[i + 1..], c[i].off;
    HeadersOf(h, c);
    HeaderOf(h, c, i);
    HeaderOf(h, c, i - 1);
    MoveRejoined(h, g, c, i, t);
    assert ChainAt(g, d, i - 1) by {
      assert MoveAt(h, g, x, t, c[i - 1].off);
      assert d[i - 1] == z[0] && OffAt(d, i - 2) == OffAt(c, i - 2) && OffAt(d, i) == t;
    }
    assert ChainAt(g, d, i) by {
      assert MoveAt(h, g, x, t, t);
      assert d[i] == z[1] && OffAt(d, i - 1) == c[i - 1].off && OffAt(d, i + 1) == OffAt(c, i + 1);
    }
    PhysSplice(h, g, c, i - 1, i + 1, z);
  }

  lemma RekeyThreaded(h: map<nat, Block>, free: seq<nat>, used: seq<nat>, x: nat, t: nat)
    requires Threaded(h, free, used) && x in h && x !in free && x !in used
    requires t !in free && t !in used && t != 0
    ensures Threaded(Rekey(h, x, t), free, used)
  {
    LinkedSame(h, Rekey(h, x, t), free);
    LinkedSame(h, Rekey(h, x, t), used);
  }

  lemma MoveThreaded(h: map<nat, Block>, free: seq<nat>, used: seq<nat>, x: nat, t: nat)
    requires Threaded(h, free, used) && x in free && t !in free && t !in used && t != 0
    requires x in h && h[x].size >= t - x >= 0
    ensures Threaded(MoveMap(h, x, t), Without(free, x), used)
  {
    hide Threaded, OutMap, Upd, Without, Rekey;
    var prev, next := Val(h, x, PPrev), Val(h, x, PNext);
    var h1 := if next != 0 then Upd(h, next, PPrev, t) else h;
    var rest := Without(free, x);
    if next != 0 { UpdThreaded(h, free, used, next, PPrev, t); }
    UpdThreaded(h1, free, used, prev, PNext, t);
    OutFree(Upd(h1, prev, PNext, t), free, used, x);
    WithoutMembersOf(free, used, h, x, t);
    var h3 := Rekey(MoveOut(h, x, t), x, t);
    RekeyThreaded(MoveOut(h, x, t), rest, used, x, t);
    var p := Val(h3, t, PPrev);
    var h4 := Upd(h3, p, Size, Val(h3, p, Size) + (t - x));
    UpdThreaded(h3, rest, used, p, Size, Val(h3, p, Size) + (t - x));
    MoveOutSize(h, x, t);
    RekeyAt(MoveOut(h, x, t), x, t);
    GapFits(h3, p, t - x, t);
    UpdThreaded(h4, rest, used, t, Size, Val(h4, t, Size) - (t - x));
  }

  lemma RekeyAt(h: map<nat, Block>, x: nat, t: nat)
    requires x in h
    ensures t in Rekey(h, x, t) && Rekey(h, x, t)[t] == h[x]
  {}

  lemma GapFits(h: map<nat, Block>, p: nat, gap: nat, t: nat)
    requires t in h && h[t].size >= gap
    ensures Val(Upd(h, p, Size, Val(h, p, Size) + gap), t, Size) >= gap
  {}

  lemma WithoutMembersOf(free: seq<nat>, used: seq<nat>, h: map<nat, Block>, x: nat, t: nat)
    requires Threaded(h, free, used) && t !in free
    ensures t !in Without(free, x) && x !in Without(free, x)
  {
    WithoutMembers(free, x);
  }

  /** HeappAlign's second case, seen in the headers. */
  lemma MoveRep(h: map<nat, Block>, s: Layout, i: nat, t: nat)
    requires Apart(s.chain) && Rep(h, s) && 0 < i && FreeAt(s.chain, i) && s.chain[i].off in s.free
    requires s.chain[i].off < t < s.chain[i].off + s.chain[i].len && t !in h && t !in s.free && t !in s.used
    ensures s.chain[i].off in h && h[s.chain[i].off].size == s.chain[i].len
    ensures var x := s.chain[i].off;
            var head, g := At(Without(s.free, x), 0), MoveMap(h, x, t);
            && (head != 0 ==> head in g && head != t)
            && Rep(FrontMap(g, head, t), Move(s, i, t))
  {
    hide Phys, Threaded, MoveMap, Without, Apart, FrontMap;
    var c, x := s.chain, s.chain[i].off;
    HeaderOf(h, c, i);
    MovePhys(h, c, i, t);
    MoveThreaded(h, s.free, s.used, x, t);
    var g := MoveMap(h, x, t);
    WithoutMembersOf(s.free, s.used, h, x, t);
    FrontFree(g, Without(s.free, x), s.used, t);
    PhysSame(g, FrontMap(g, At(Without(s.free, x), 0), t), Move(s, i, t).chain);
  }

  lemma MovePhys(h: map<nat, Block>, c: seq<Extent>, i: nat, t: nat)
    requires Apart(c) && Phys(h, c) && 0 < i && FreeAt(c, i) && c[i].off < t < c[i].off + c[i].len && t !in h
    requires c[i].off in h && h[c[i].off].size == c[i].len
    ensures t in MoveMap(h, c[i].off, t)
    ensures Phys(MoveMap(h, c[i].off, t),
                 c[..i - 1] + [c[i - 1].(len := c[i - 1].len + (t - c[i].off)),
                               Extent(t, c[i].len - (t - c[i].off), false)] + c[i + 1..])
  {
    hide MoveMap, MoveAt, Phys;
    var g, x := MoveMap(h, c[i].off, t), c[i].off;
    HeadersOf(h, c);
    HeaderOf(h, c, i);
    forall y | (y in h && y != x) || y == t ensures MoveAt(h, g, x, t, y) && y in g {
      MoveVals(h, x, t, y);
      MoveAtIn(h, g, x, t, y);
    }
    MoveChain(h, g, c, i, t,
              [c[i - 1].(len := c[i - 1].len + (t - x)), Extent(t, c[i].len - (t - x), false)]);
  }

  lemma MoveAtIn(h: map<nat, Block>, g: map<nat, Block>, x: nat, t: nat, y: nat)
    requires x in h && (y in h || y == t) && h[x].size >= t - x >= 0 && MoveAt(h, g, x, t, y)
    ensures y in g
  {}

  // ------------------------------------------------------------------- coalescing

  /** U U U: nothing to merge with. */
  ghost function AloneMap(h: map<nat, Block>, x: nat): (g: map<nat, Block>)
    ensures g.Keys == h.Keys
  {
    Upd(h, x, State, FREE)
  }

  /** U U F: x takes in the next block. */
  ghost function NextJoin(h: map<nat, Block>, x: nat): (g: map<nat, Block>)
    ensures g.Keys == h.Keys
  {
    var next := Val(h, x, PNext);
    var h1 := OutMap(h, next);
    var h2 := Upd(h1, x, Size, Val(h1, x, Size) + HEADER + Val(h1, next, Size));
    var far := Val(h2, next, PNext);
    var h3 := Upd(h2, x, PNext, far);
    if far != 0 then Upd(h3, far, PPrev, x) else h3
  }

  ghost function NextMap(h: map<nat, Block>, x: nat): (g: map<nat, Block>)
    ensures g.Keys == h.Keys - {Val(h, x, PNext)}
  {
    Upd(NextJoin(h, x) - {Val(h, x, PNext)}, x, State, FREE)
  }

  /** F U U: the previous block takes in x. */
  ghost function PrevJoin(h: map<nat, Block>, x: nat): (g: map<nat, Block>)
    ensures g.Keys == h.Keys
  {
    var prev, next := Val(h, x, PPrev), Val(h, x, PNext);
    var h1 := Upd(h, prev, Size, Val(h, prev, Size) + HEADER + Val(h, x, Size));
    var h2 := Upd(h1, prev, PNext, next);
    if next != 0 then Upd(h2, next, PPrev, prev) else h2
  }

  ghost function PrevMap(h: map<nat, Block>, x: nat): (g: map<nat, Block>)
    ensures g.Keys == h.Keys - {x}
  {
    PrevJoin(h, x) - {x}
  }

  /** F U F: the previous block takes in x and the next block. */
  ghost function BothJoin(h: map<nat, Block>, x: nat): (g: map<nat, Block>)
    ensures g.Keys == h.Keys
  {
    var prev, next := Val(h, x, PPrev), Val(h, x, PNext);
    var h1 := OutMap(h, next);
    var h2 := Upd(h1, prev, Size, Val(h1, prev, Size) + HEADER + Val(h1, x, Size) + HEADER + Val(h1, next, Size));
    var far := Val(h2, next, PNext);
    var h3 := Upd(h2, prev, PNext, far);
    if far != 0 then Upd(h3, far, PPrev, prev) else h3
  }

  ghost function BothMap(h: map<nat, Block>, x: nat): (g: map<nat, Block>)
    ensures g.Keys == h.Keys - {x, Val(h, x, PNext)}
  {
    BothJoin(h, x) - {x, Val(h, x, PNext)}
  }

  /** Block a now has `total` bytes, is free and is followed by block b. */
  ghost predicate MergeAt(h: map<nat, Block>, g: map<nat, Block>, a: nat, total: nat, b: nat, y: nat) {
    && y in h && y in g
    && g[y].state == (if y == a then FREE else h[y].state)
    && g[y].size == (if y == a then total else h[y].size)
    && g[y].pprev == (if y == b && y != 0 then a else h[y].pprev)
    && g[y].pnext == (if y == a then b else h[y].pnext)
  }

  lemma MergeRejoined(h: map<nat, Block>, g: map<nat, Block>, c: seq<Extent>, lo: nat, hi: nat, total: nat)
    requires Apart(c) && Phys(h, c) && lo < hi <= |c|
    requires forall k :: 0 <= k <= lo || hi <= k < |c| ==> MergeAt(h, g, c[lo].off, total, OffAt(c, hi), c[k].off)
    ensures Rejoined(h, g, c, lo, hi, c[lo].off, c[lo].off)
  {
    hide Phys;
    HeadersOf(h, c);
    HeaderOf(h, c, lo);
    forall k | 0 <= k < lo - 1 || hi < k < |c| ensures SamePhysAt(h, g, c[k].off) {
      assert MergeAt(h, g, c[lo].off, total, OffAt(c, hi), c[k].off);
    }
    if lo > 0 { assert MergeAt(h, g, c[lo].off, total, OffAt(c, hi), c[lo - 1].off); }
    if hi < |c| { assert MergeAt(h, g, c[lo].off, total, OffAt(c, hi), c[hi].off); }
  }

  lemma MergeChain(h: map<nat, Block>, g: map<nat, Block>, c: seq<Extent>, lo: nat, hi: nat)
    requires Apart(c) && Phys(h, c) && lo < hi <= |c|
    requires forall k :: 0 <= k <= lo || hi <= k < |c| ==>
      MergeAt(h, g, c[lo].off, Joined(c, lo, hi), OffAt(c, hi), c[k].off)
    ensures Phys(g, Merge(c, lo, hi))
  {
    hide Phys, Rejoined, Joined;
    assert hi < |c| ==> c[lo].off < c[hi].off;
    var z, d := [Extent(c[lo].off, Joined(c, lo, hi), false)], Merge(c, lo, hi);
    HeaderOf(h, c, lo);
    MergeRejoined(h, g, c, lo, hi, Joined(c, lo, hi));
    assert ChainAt(g, d, lo) by {
      assert MergeAt(h, g, c[lo].off, Joined(c, lo, hi), OffAt(c, hi), c[lo].off);
      assert d[lo] == z[0] && OffAt(d, lo - 1) == OffAt(c, lo - 1) && OffAt(d, lo + 1) == OffAt(c, hi);
    }
    PhysSplice(h, g, c, lo, hi, z);
  }

  lemma NextVals(h: map<nat, Block>, x: nat, y: nat)
    requires x in h && y in h && h[x].pnext in h && h[x].pnext != x && y != h[x].pnext
    requires h[h[x].pnext].pnext != x && h[h[x].pnext].pnext != h[x].pnext
    ensures var next := h[x].pnext;
      MergeAt(h, NextMap(h, x), x, h[x].size + HEADER + h[next].size, h[next].pnext, y)
  {
    hide OutMap;
    OutPhys(h, h[x].pnext);
  }

  lemma PrevVals(h: map<nat, Block>, x: nat, y: nat)
    requires x in h && y in h && h[x].pprev in h && h[x].pprev != x && y != x && 0 !in h
    requires h[x].pnext != x && h[x].pnext != h[x].pprev && h[h[x].pprev].state == FREE
    ensures var prev := h[x].pprev;
      MergeAt(h, PrevMap(h, x), prev, h[prev].size + HEADER + h[x].size, h[x].pnext, y)
  {}

  lemma BothVals(h: map<nat, Block>, x: nat, y: nat)
    requires x in h && y in h && h[x].pprev in h && h[x].pnext in h && y != x && y != h[x].pnext && 0 !in h
    requires h[x].pprev != x && h[x].pnext != x && h[x].pnext != h[x].pprev && h[h[x].pprev].state == FREE
    requires h[h[x].pnext].pnext != x && h[h[x].pnext].pnext != h[x].pnext && h[h[x].pnext].pnext != h[x].pprev
    ensures var prev, next := h[x].pprev, h[x].pnext;
      MergeAt(h, BothMap(h, x), prev, h[prev].size + HEADER + h[x].size + HEADER + h[next].size, h[next].pnext, y)
  {
    hide OutMap;
    OutPhys(h, h[x].pnext);
  }

  // Lists after each of the four cases, x being off the used list already.

  lemma NextThreaded(h: map<nat, Block>, free: seq<nat>, used: seq<nat>, x: nat)
    requires Threaded(h, free, used) && x in h && h[x].pnext in free
    ensures Threaded(NextMap(h, x), Without(free, h[x].pnext), used)
  {
    hide Threaded, OutMap, Upd, Without;
    var next, rest := Val(h, x, PNext), Without(free, h[x].pnext);
    var h1 := OutMap(h, next);
    var h2 := Upd(h1, x, Size, Val(h1, x, Size) + HEADER + Val(h1, next, Size));
    var far := Val(h2, next, PNext);
    var h3 := Upd(h2, x, PNext, far);
    var h4 := if far != 0 then Upd(h3, far, PPrev, x) else h3;
    OutFree(h, free, used, next);
    UpdThreaded(h1, rest, used, x, Size, Val(h1, x, Size) + HEADER + Val(h1, next, Size));
    UpdThreaded(h2, rest, used, x, PNext, far);
    if far != 0 { UpdThreaded(h3, rest, used, far, PPrev, x); }
    DropThreaded(h4, rest, used, {next});
    UpdThreaded(h4 - {next}, rest, used, x, State, FREE);
  }

  lemma PrevThreaded(h: map<nat, Block>, free: seq<nat>, used: seq<nat>, x: nat)
    requires Threaded(h, free, used) && x !in free && x !in used
    ensures Threaded(PrevMap(h, x), free, used)
  {
    hide Threaded, Upd;
    var prev, next := Val(h, x, PPrev), Val(h, x, PNext);
    var h1 := Upd(h, prev, Size, Val(h, prev, Size) + HEADER + Val(h, x, Size));
    var h2 := Upd(h1, prev, PNext, next);
    UpdThreaded(h, free, used, prev, Size, Val(h, prev, Size) + HEADER + Val(h, x, Size));
    UpdThreaded(h1, free, used, prev, PNext, next);
    if next != 0 { UpdThreaded(h2, free, used, next, PPrev, prev); }
    DropThreaded(if next != 0 then Upd(h2, next, PPrev, prev) else h2, free, used, {x});
  }

  lemma BothThreaded(h: map<nat, Block>, free: seq<nat>, used: seq<nat>, x: nat)
    requires Threaded(h, free, used) && x in h && h[x].pnext in free && x !in free && x !in used
    ensures Threaded(BothMap(h, x), Without(free, h[x].pnext), used)
  {
    hide Threaded, OutMap, Upd, Without;
    var prev, next, rest := Val(h, x, PPrev), Val(h, x, PNext), Without(free, h[x].pnext);
    var h1 := OutMap(h, next);
    var total := Val(h1, prev, Size) + HEADER + Val(h1, x, Size) + HEADER + Val(h1, next, Size);
    var h2 := Upd(h1, prev, Size, total);
    var far := Val(h2, next, PNext);
    var h3 := Upd(h2, prev, PNext, far);
    OutFree(h, free, used, next);
    WithoutMembersOf(free, used, h, next, x);
    UpdThreaded(h1, rest, used, prev, Size, total);
    UpdThreaded(h2, rest, used, prev, PNext, far);
    if far != 0 { UpdThreaded(h3, rest, used, far, PPrev, prev); }
    DropThreaded(if far != 0 then Upd(h3, far, PPrev, prev) else h3, rest, used, {x, next});
  }

  /** Forgetting headers of blocks that are on no list. */
  lemma DropThreaded(h: map<nat, Block>, free: seq<nat>, used: seq<nat>, gone: set<nat>)
    requires Threaded(h, free, used) && forall x :: x in gone ==> x !in free && x !in used
    ensures Threaded(h - gone, free, used)
  {
    LinkedSame(h, h - gone, free);
    LinkedSame(h, h - gone, used);
  }

  // ---------------------------------------------------------------- HeappFree as a whole

  /** All the header writes of HeappFree on block x, up to the last link. */
  ghost function FreedMap(h: map<nat, Block>, x: nat, prevFree: bool, nextFree: bool): map<nat, Block> {
    CoalesceMap(OutMap(h, x), x, prevFree, nextFree)
  }

  /** What the headers tell about block i and its neighbours after the block left the used list. */
  ghost predicate Around(h: map<nat, Block>, c: seq<Extent>, i: nat)
    requires i < |c|
  {
    && 0 !in h
    && Shows(h, c[i], OffAt(c, i - 1), OffAt(c, i + 1))
    && (i > 0 ==> Shows(h, c[i - 1], OffAt(c, i - 2), c[i].off))
    && (i + 1 < |c| ==> Shows(h, c[i + 1], c[i].off, OffAt(c, i + 2)))
    && (forall k :: 0 <= k < |c| ==> c[k].off in h && c[k].off >= HEADER)
    && (forall j, k :: 0 <= j < k < |c| ==> c[j].off < c[k].off)
  }

  lemma AroundOf(h: map<nat, Block>, c: seq<Extent>, i: nat)
    requires Apart(c) && Phys(h, c) && i < |c| && 0 !in h
    ensures Around(h, c, i)
  {
    HeadersOf(h, c);
    HeaderOf(h, c, i);
    if i > 0 { HeaderOf(h, c, i - 1); }
    if i + 1 < |c| { HeaderOf(h, c, i + 1); }
  }

  lemma AlonePhys(h: map<nat, Block>, c: seq<Extent>, i: nat)
    requires Apart(c) && Phys(h, c) && i < |c| && 0 !in h
    ensures Phys(AloneMap(h, c[i].off), Merge(c, i, i + 1))
  {
    hide Phys, Apart;
    AroundOf(h, c, i);
    forall k | 0 <= k < |c|
      ensures MergeAt(h, AloneMap(h, c[i].off), c[i].off, Joined(c, i, i + 1), OffAt(c, i + 1), c[k].off)
    {}
    MergeChain(h, AloneMap(h, c[i].off), c, i, i + 1);
  }

  lemma NextPhys(h: map<nat, Block>, c: seq<Extent>, i: nat)
    requires Apart(c) && Phys(h, c) && i + 1 < |c| && 0 !in h
    ensures Phys(NextMap(h, c[i].off), Merge(c, i, i + 2))
  {
    hide Phys, Apart, NextMap;
    AroundOf(h, c, i);
    forall k | 0 <= k <= i || i + 2 <= k < |c|
      ensures MergeAt(h, NextMap(h, c[i].off), c[i].off, Joined(c, i, i + 2), OffAt(c, i + 2), c[k].off)
    {
      assert Joined(c, i, i + 2) == Joined(c, i, i + 1) + HEADER + c[i + 1].len;
      NextVals(h, c[i].off, c[k].off);
    }
    MergeChain(h, NextMap(h, c[i].off), c, i, i + 2);
  }

  lemma PrevPhys(h: map<nat, Block>, c: seq<Extent>, i: nat)
    requires Apart(c) && Phys(h, c) && FreeAt(c, i - 1) && i < |c| && 0 !in h
    ensures Phys(PrevMap(h, c[i].off), Merge(c, i - 1, i + 1))
  {
    hide Phys, Apart, PrevMap;
    AroundOf(h, c, i);
    forall k | 0 <= k <= i - 1 || i + 1 <= k < |c|
      ensures MergeAt(h, PrevMap(h, c[i].off), c[i - 1].off, Joined(c, i - 1, i + 1), OffAt(c, i + 1), c[k].off)
    {
      assert Joined(c, i - 1, i + 1) == Joined(c, i - 1, i) + HEADER + c[i].len;
      PrevVals(h, c[i].off, c[k].off);
    }
    MergeChain(h, PrevMap(h, c[i].off), c, i - 1, i + 1);
  }

  lemma BothPhys(h: map<nat, Block>, c: seq<Extent>, i: nat)
    requires Apart(c) && Phys(h, c) && FreeAt(c, i - 1) && i + 1 < |c| && 0 !in h
    ensures Phys(BothMap(h, c[i].off), Merge(c, i - 1, i + 2))
  {
    hide Phys, Apart, BothMap;
    AroundOf(h, c, i);
    forall k | 0 <= k <= i - 1 || i + 2 <= k < |c|
      ensures MergeAt(h, BothMap(h, c[i].off), c[i - 1].off, Joined(c, i - 1, i + 2), OffAt(c, i + 2), c[k].off)
    {
      assert Joined(c, i - 1, i + 1) == Joined(c, i - 1, i) + HEADER + c[i].len;
      assert Joined(c, i - 1, i + 2) == Joined(c, i - 1, i + 1) + HEADER + c[i + 1].len;
      BothVals(h, c[i].off, c[k].off);
    }
    MergeChain(h, BothMap(h, c[i].off), c, i - 1, i + 2);
  }

  /** HeappFree on used block i, seen in the headers. */
  lemma FreedRep(h: map<nat, Block>, s: Layout, i: nat)
    requires Apart(s.chain) && Rep(h, s) && i < |s.chain| && s.chain[i].off in s.used && s.chain[i].off !in s.free
    requires FreeAt(s.chain, i + 1) ==> s.chain[i + 1].off in s.free
    ensures var x, p, n := s.chain[i].off, FreeAt(s.chain, i - 1), FreeAt(s.chain, i + 1);
            var free := if n then Without(s.free, s.chain[i + 1].off) else s.free;
            var g := FreedMap(h, x, p, n);
            && (!p ==> x in g && (At(free, 0) != 0 ==> At(free, 0) in g && At(free, 0) != x))
            && Rep(if p then g else FrontMap(g, At(free, 0), x), Release(s, i))
  {
    hide Phys, Threaded, AloneMap, NextMap, PrevMap, BothMap, Without, OutMap, FrontMap, Merge, Apart;
    var c, x := s.chain, s.chain[i].off;
    var p, n := FreeAt(c, i - 1), FreeAt(c, i + 1);
    var h1, used := OutMap(h, x), Without(s.used, x);
    OutUsed(h, s.free, s.used, x);
    PhysSame(h, h1, c);
    ZeroAbsent(h1, s.free, used);
    HeaderOf(h1, c, i);
    var free := if n then Without(s.free, c[i + 1].off) else s.free;
    var g := FreedMap(h, x, p, n);
    match (p, n) {
      case (false, false) => UpdThreaded(h1, s.free, used, x, State, FREE); AlonePhys(h1, c, i); AloneIs(h1, x);
      case (false, true) => NextThreaded(h1, s.free, used, x); NextPhys(h1, c, i);
      case (true, false) => PrevThreaded(h1, s.free, used, x); PrevPhys(h1, c, i);
      case (true, true) => BothThreaded(h1, s.free, used, x); BothPhys(h1, c, i);
    }
    if !p {
      MergedHead(g, c, i, if n then i + 2 else i + 1);
      if n { WithoutMembersOf(s.free, used, h1, c[i + 1].off, x); }
      FrontFree(g, free, used, x);
      PhysSame(g, FrontMap(g, At(free, 0), x), Release(s, i).chain);
    }
  }

  lemma AloneIs(h: map<nat, Block>, x: nat)
    ensures AloneMap(h, x) == Upd(h, x, State, FREE)
  {}

  lemma ZeroAbsent(h: map<nat, Block>, free: seq<nat>, used: seq<nat>)
    requires Threaded(h, free, used)
    ensures 0 !in h
  {}

  lemma MergedHead(g: map<nat, Block>, c: seq<Extent>, lo: nat, hi: nat)
    requires lo < hi <= |c| && Phys(g, Merge(c, lo, hi))
    ensures c[lo].off in g
  {
    assert Merge(c, lo, hi)[lo].off == c[lo].off;
    HeadersOf(g, Merge(c, lo, hi));
  }

  // --------------------------------------------------------- where the headers stand

  lemma CutOffs(s: Layout, i: nat, n: nat)
    requires i < |s.chain| && s.chain[i].len >= n + HEADER
    ensures Offs(Cut(s, i, n).chain) == Offs(s.chain) + {s.chain[i].off + n + HEADER}
  {
    var c, d := s.chain, Cut(s, i, n).chain;
    assert c == c[..i] + [c[i]] + c[i + 1..];
    forall k | 0 <= k < |c| ensures c[k].off in Offs(d) { assert d[if k <= i then k else k + 1].off == c[k].off; }
    assert d[i + 1].off == c[i].off + n + HEADER;
    forall k | 0 <= k < |d| && k != i + 1 ensures d[k].off in Offs(c) {
      assert d[k].off == c[if k <= i then k else k - 1].off;
    }
  }

  lemma ClaimOffs(s: Layout, i: nat)
    requires i < |s.chain|
    ensures Offs(Claim(s, i).chain) == Offs(s.chain)
  {
    var c, d := s.chain, Claim(s, i).chain;
    forall k | 0 <= k < |c| ensures d[k].off == c[k].off {}
  }

  lemma MoveOffs(s: Layout, i: nat, t: nat)
    requires Apart(s.chain) && 0 < i < |s.chain| && s.chain[i].off < t < s.chain[i].off + s.chain[i].len
    ensures Offs(Move(s, i, t).chain) == Offs(s.chain) - {s.chain[i].off} + {t}
  {
    var c, d := s.chain, Move(s, i, t).chain;
    forall k | 0 <= k < |c| && k != i ensures d[k].off == c[k].off {}
    assert d[i].off == t;
    forall k | 0 <= k < |c| && k != i ensures c[k].off in Offs(d) { assert d[k].off == c[k].off; }
  }

  lemma MergeOffs(c: seq<Extent>, lo: nat, hi: nat)
    requires Apart(c) && lo < hi <= |c|
    ensures Offs(Merge(c, lo, hi)) == Offs(c) - Offs(c[lo + 1..hi])
  {
    var d, w := Merge(c, lo, hi), hi - lo - 1;
    forall k | 0 <= k < |d| ensures d[k].off in Offs(c) && d[k].off !in Offs(c[lo + 1..hi]) {
      assert d[k].off == c[if k <= lo then k else k + w].off;
    }
    forall k | 0 <= k < |c| && !(lo < k < hi) ensures c[k].off in Offs(d) {
      assert d[if k <= lo then k else k - w].off == c[k].off;
    }
    forall k | lo < k < hi ensures c[k].off in Offs(c[lo + 1..hi]) { assert c[lo + 1..hi][k - lo - 1] == c[k]; }
  }

  /** What HeappAlign's second case relies on. */
  lemma MoveReady(h: map<nat, Block>, s: Layout, size: nat, i: nat, t: nat)
    requires Inv(s, size) && Rep(h, s) && 0 < i && FreeAt(s.chain, i) && h.Keys == Offs(s.chain)
    requires s.chain[i].off < t < s.chain[i].off + s.chain[i].len
    ensures var x, g := s.chain[i].off, Move(s, i, t);
            && Sound(g, size) && Apart(s.chain) && Separate(Offs(g.chain), size)
            && Offs(g.chain) == Offs(s.chain) - {x} + {t}
            && t !in h && t !in s.free && t !in s.used && t != 0 && x in s.free
            && Unlinkable(h, x) && h[x].size == s.chain[i].len
            && Val(h, x, PPrev) == s.chain[i - 1].off && Val(h, x, PPrev) in h && Val(h, x, PPrev) != x
            && Val(h, s.chain[i - 1].off, Size) == s.chain[i - 1].len
            && Val(h, x, PNext) != x
            && (Val(h, x, PNext) != 0 ==> Val(h, x, PNext) in h)
            && At(Without(s.free, x), 0) == (if At(s.free, 0) == x then h[x].vnext else At(s.free, 0))
            && At(g.free, 0) == t && g.used == s.used
            && s.chain[i - 1].len + (t - x) < size && t <= size
  {
    hide Sound, Threaded, Apart, Without, Offs, Unlinkable, Phys, Separate, Move, Shows, HasBlock, Lists;
    var x := s.chain[i].off;
    FreeIsFenced(s.chain, i);
    MoveSound(s, size, i, t);
    SoundApart(s, size);
    SoundTiles(Move(s, i, t), size);
    ChainSeparate(Move(s, i, t).chain, size);
    MoveOffs(s, i, t);
    InsideIsFresh(s, size, i, t);
    InsideNoHeader(s.chain, i, t);
    OnItsList(s, size, i);
    OutFree(h, s.free, s.used, x);
    SoundTiles(s, size);
    MoveFields(h, s, size, i, t);
  }

  lemma MoveFields(h: map<nat, Block>, s: Layout, size: nat, i: nat, t: nat)
    requires Apart(s.chain) && Tiles(s.chain, size) && Phys(h, s.chain) && 0 < i < |s.chain|
    requires s.chain[i].off < t < s.chain[i].off + s.chain[i].len
    ensures var x := s.chain[i].off;
            && x in h && h[x].size == s.chain[i].len && t != 0
            && Val(h, x, PPrev) == s.chain[i - 1].off && Val(h, x, PPrev) in h && Val(h, x, PPrev) != x
            && Val(h, s.chain[i - 1].off, Size) == s.chain[i - 1].len
            && Val(h, x, PNext) != x
            && (Val(h, x, PNext) != 0 ==> Val(h, x, PNext) in h)
            && At(Move(s, i, t).free, 0) == t && Move(s, i, t).used == s.used
            && s.chain[i - 1].len + (t - x) < size && t <= size
  {
    hide Phys;
    TilesBounds(s.chain, size);
    HeaderOf(h, s.chain, i);
    HeaderOf(h, s.chain, i - 1);
  }

  /** The headers between the steps of MoveFree. */
  lemma MoveSteps(h: map<nat, Block>, x: nat, t: nat, p: nat)
    requires x in h && h[x].size >= t - x >= 0 && t !in h && t < U32
    requires Val(h, x, PPrev) == p && p in h && p != x && Val(h, x, PNext) != x
    ensures var g := MoveOut(h, x, t);
            && x in g && g.Keys == h.Keys
            && var k := Rekey(g, x, t);
            && t in k && k.Keys == h.Keys - {x} + {t} && k[t].size == h[x].size
            && Val(k, t, PPrev) == p && p in k && p != t && Val(k, p, Size) == Val(h, p, Size)
            && MoveMap(h, x, t) == MoveSizes(k, t, t - x)
  {
    hide OutMap;
    var h1 := if h[x].pnext != 0 then Upd(h, h[x].pnext, PPrev, t) else h;
    OutPhys(Upd(h1, p, PNext, t), x);
  }

  // ------------------------------------------------------------ what HeappFree relies on

  /** Facts about a used block i and its neighbours, with the headers h as they are once the
      block has left the used list. */
  ghost predicate Freeing(h: map<nat, Block>, s: Layout, size: nat, i: nat)
    requires i < |s.chain|
  {
    var c, x, prev, next, far := s.chain, s.chain[i].off, OffAt(s.chain, i - 1), OffAt(s.chain, i + 1), OffAt(s.chain, i + 2);
    && x in h && Val(h, x, PPrev) == prev && Val(h, x, PNext) == next && Val(h, x, Size) == c[i].len
    && (prev == 0 <==> i == 0)
    && (next == 0 <==> i + 1 == |c|)
    && (i > 0 ==> prev in h && prev < x && Val(h, prev, State) == (if c[i - 1].used then USED else FREE)
                  && Val(h, prev, Size) + HEADER + c[i].len < size)
    && (i + 1 < |c| ==> next in h && x < next && Val(h, next, State) == (if c[i + 1].used then USED else FREE)
                        && Val(h, next, PNext) == far && c[i].len + HEADER + Val(h, next, Size) < size
                        && (far != 0 ==> far in h && next < far))
    && (i > 0 && i + 1 < |c| ==> Val(h, prev, Size) + HEADER + c[i].len + HEADER + Val(h, next, Size) < size)
  }

  /** A block and its neighbours, in order. */
  lemma TilesAround(c: seq<Extent>, size: nat, i: nat)
    requires Tiles(c, size) && i < |c|
    ensures START <= c[i].off && c[i].off + c[i].len <= size
    ensures i > 0 ==> START <= c[i - 1].off && c[i - 1].off + c[i - 1].len + HEADER <= c[i].off
    ensures i + 1 < |c| ==> c[i].off + c[i].len + HEADER <= c[i + 1].off && c[i + 1].off + c[i + 1].len <= size
    ensures i + 2 < |c| ==> c[i + 1].off < c[i + 2].off
  {
    hide Spans, IndexOf;
    TilesBounds(c, size);
  }

  lemma FreeingOf(h: map<nat, Block>, s: Layout, size: nat, i: nat)
    requires Apart(s.chain) && Tiles(s.chain, size) && Phys(h, s.chain) && i < |s.chain|
    ensures Freeing(h, s, size, i)
  {
    hide Phys, Apart, Tiles;
    var c := s.chain;
    TilesAround(c, size, i);
    HeaderOf(h, c, i);
    if i > 0 { HeaderOf(h, c, i - 1); }
    if i + 1 < |c| { HeaderOf(h, c, i + 1); }
    if i + 2 < |c| { HeaderOf(h, c, i + 2); }
  }

  lemma ReleaseFree(s: Layout, i: nat)
    requires i < |s.chain|
    ensures At(Release(s, i).free, 0) == (if !FreeAt(s.chain, i - 1) then s.chain[i].off
                                          else if FreeAt(s.chain, i + 1) then At(Without(s.free, s.chain[i + 1].off), 0)
                                          else At(s.free, 0))
  {}

  lemma FreeingKeys(h: map<nat, Block>, s: Layout, size: nat, i: nat)
    requires i < |s.chain| && Freeing(h, s, size, i)
    ensures s.chain[i].off in h && Val(h, s.chain[i].off, PNext) == OffAt(s.chain, i + 1)
  {}

  lemma FreeReady(h: map<nat, Block>, s: Layout, size: nat, i: nat)
    requires Inv(s, size) && Rep(h, s) && i < |s.chain| && s.chain[i].used
    ensures var x, next, h1 := s.chain[i].off, OffAt(s.chain, i + 1), OutMap(h, s.chain[i].off);
            && Unlinkable(h, x) && Freeing(h1, s, size, i) && Inv(Release(s, i), size)
            && Apart(s.chain) && Tiles(s.chain, size)
            && Offs(Release(s, i).chain) == Offs(s.chain) - Absorbed(s.chain, i)
            && FreedMap(h, x, FreeAt(s.chain, i - 1), FreeAt(s.chain, i + 1)).Keys == h.Keys - Absorbed(s.chain, i)
            && x in s.used && x !in s.free
            && (FreeAt(s.chain, i + 1) ==>
                  && Unlinkable(h1, next) && next in s.free
                  && At(Without(s.free, next), 0) == (if At(s.free, 0) == next then h1[next].vnext else At(s.free, 0)))
            && At(Release(s, i).used, 0) == (if At(s.used, 0) == x then h[x].vnext else At(s.used, 0))
            && At(Release(s, i).free, 0) == (if !FreeAt(s.chain, i - 1) then x
                                             else if FreeAt(s.chain, i + 1) then At(Without(s.free, next), 0)
                                             else At(s.free, 0))
  {
    hide Sound, Coalesced, Threaded, Apart, Without, Unlinkable, Phys, OutMap, HasBlock, Lists, Freeing, Release, Absorbed, FreedMap, Offs;
    var x := s.chain[i].off;
    OnItsList(s, size, i);
    SoundApart(s, size);
    SoundTiles(s, size);
    ReleaseOffs(s, i);
    OutUsed(h, s.free, s.used, x);
    PhysSame(h, OutMap(h, x), s.chain);
    FreeingOf(OutMap(h, x), s, size, i);
    FreeingKeys(OutMap(h, x), s, size, i);
    FreedKeys(h, s.chain, i);
    ReleaseFree(s, i);
    ReleaseKeeps(s, size, i);
    if FreeAt(s.chain, i + 1) {
      OnItsList(s, size, i + 1);
      OutFree(OutMap(h, x), s.free, Without(s.used, x), s.chain[i + 1].off);
    }
  }

  /** The blocks that disappear when block i is freed. */
  ghost function Absorbed(c: seq<Extent>, i: nat): set<nat>
    requires i < |c|
  {
    (if FreeAt(c, i - 1) then {c[i].off} else {}) + (if FreeAt(c, i + 1) then {c[i + 1].off} else {})
  }

  lemma ReleaseOffs(s: Layout, i: nat)
    requires Apart(s.chain) && i < |s.chain|
    ensures Offs(Release(s, i).chain) == Offs(s.chain) - Absorbed(s.chain, i)
  {
    var c, lo, hi := s.chain, ReleaseLo(s.chain, i), ReleaseHi(s.chain, i);
    MergeOffs(c, lo, hi);
    var inner := c[lo + 1..hi];
    assert Offs(inner) == Absorbed(c, i) by {
      forall k | 0 <= k < |inner| ensures inner[k].off in Absorbed(c, i) { assert inner[k] == c[lo + 1 + k]; }
      if FreeAt(c, i - 1) { assert inner[0] == c[i]; }
      if FreeAt(c, i + 1) { assert inner[|inner| - 1] == c[i + 1]; }
    }
  }

  lemma FreedKeys(h: map<nat, Block>, c: seq<Extent>, i: nat)
    requires i < |c| && c[i].off in h
    requires FreeAt(c, i + 1) ==> Val(OutMap(h, c[i].off), c[i].off, PNext) == c[i + 1].off
    ensures FreedMap(h, c[i].off, FreeAt(c, i - 1), FreeAt(c, i + 1)).Keys == h.Keys - Absorbed(c, i)
  {
    hide OutMap, NextJoin, PrevJoin, BothJoin;
  }

  /** Coalescing as one function of the headers, x being off the used list. */
  ghost function CoalesceMap(h: map<nat, Block>, x: nat, prevFree: bool, nextFree: bool): map<nat, Block> {
    match (prevFree, nextFree)
    case (false, false) => AloneMap(h, x)
    case (false, true) => NextMap(h, x)
    case (true, false) => PrevMap(h, x)
    case (true, true) => BothMap(h, x)
  }

  /** Linking x and changing its state leaves the state of the others. */
  lemma AloneStates(h: map<nat, Block>, head: nat, x: nat, y: nat)
    requires y != x
    ensures Val(FrontMap(AloneMap(h, x), head, x), y, State) == Val(h, y, State)
  {
    FrontPhys(AloneMap(h, x), head, x);
  }

  lemma NextStates(h: map<nat, Block>, head: nat, x: nat, y: nat)
    requires y != x && y != Val(h, x, PNext)
    ensures Val(FrontMap(NextMap(h, x), head, x), y, State) == Val(h, y, State)
  {
    hide OutMap;
    FrontPhys(NextMap(h, x), head, x);
    OutPhys(h, Val(h, x, PNext));
  }

  lemma PrevStates(h: map<nat, Block>, x: nat, y: nat)
    requires y != x
    ensures Val(PrevMap(h, x), y, State) == Val(h, y, State)
  {}

  /** No remaining header stands in the payload of the freed block. */
  lemma PayloadClear(s: Layout, size: nat, i: nat)
    requires Apart(s.chain) && Tiles(s.chain, size) && i < |s.chain|
    ensures s.chain[i].off + s.chain[i].len <= size
    ensures forall x :: x in Offs(Release(s, i).chain) ==>
              s.chain[i].off + s.chain[i].len + HEADER <= x || x <= s.chain[i].off
  {
    TilesBounds(s.chain, size);
    ReleaseOffs(s, i);
    hide Release;
    forall x | x in Offs(s.chain) ensures s.chain[i].off + s.chain[i].len + HEADER <= x || x <= s.chain[i].off {
      var k :| 0 <= k < |s.chain| && s.chain[k].off == x;
      assert k < i || k == i || k > i;
    }
  }

  // ---------------------------------------------------------------- payload bytes

  /** Bytes of a payload belong to no header of the chain. */
  lemma PayloadOutside(c: seq<Extent>, size: nat, e: Extent, k: nat)
    requires Tiles(c, size) && e in c && e.off <= k < e.off + e.len
    ensures !InHeader(Offs(c), k)
  {
    TilesBounds(c, size);
    var i :| 0 <= i < |c| && c[i] == e;
    forall x | x in Offs(c) ensures !(x <= k + HEADER && k < x) {
      var j :| 0 <= j < |c| && c[j].off == x;
      assert j < i || j == i || i < j;
    }
  }

  /** The payloads of the used blocks of c, but for the block at `but`, read the same. */
  ghost predicate PayloadsKept(c: seq<Extent>, m: seq<byte>, r: seq<byte>, but: nat) {
    |r| == |m| && forall e, k :: e in c && e.used && e.off != but && e.off <= k < e.off + e.len && 0 <= k < |m| ==> r[k] == m[k]
  }

  lemma InHeaderUnion(a: set<nat>, b: set<nat>, k: nat)
    requires !InHeader(a, k) && !InHeader(b, k)
    ensures !InHeader(a + b, k)
  {}

  /** Header writes before and after an operation spare every payload that survives it. */
  lemma SparesPayloads(c: seq<Extent>, d: seq<Extent>, size: nat, m: seq<byte>, r: seq<byte>, touched: set<nat>, but: nat)
    requires Tiles(c, size) && Tiles(d, size)
    requires SameOutside(m, r, touched) && touched <= Offs(c) + Offs(d)
    requires forall e :: e in c && e.used && e.off != but ==> Survives(e, d)
    ensures PayloadsKept(c, m, r, but)
  {
    forall e, k | e in c && e.used && e.off != but && e.off <= k < e.off + e.len && 0 <= k < |m| ensures r[k] == m[k] {
      var f :| f in d && f.used && f.off == e.off && f.len >= e.len;
      PayloadOutside(c, size, e, k);
      PayloadOutside(d, size, f, k);
      InHeaderUnion(Offs(c), Offs(d), k);
      assert !InHeader(touched, k) by { InHeaderGrows(touched, Offs(c) + Offs(d)); }
    }
  }

  lemma OtherPayload(c: seq<Extent>, size: nat, x: Extent, e: Extent, k: nat)
    requires Tiles(c, size) && x in c && e in c && e.off != x.off && e.off <= k < e.off + e.len
    ensures !(x.off <= k < x.off + x.len)
  {
    hide Tiles;
    TilesBounds(c, size);
    var i :| 0 <= i < |c| && c[i] == x;
    var j :| 0 <= j < |c| && c[j] == e;
    assert j < i || i < j;
  }

  /** After a free: every other payload keeps its bytes; the freed one is zero when asked to. */
  lemma FreeSparesPayloads(s: Layout, size: nat, i: nat, m: seq<byte>, r: seq<byte>, secure: bool)
    requires Inv(s, size) && i < |s.chain| && s.chain[i].used && |m| == size
    requires SameOutside(Scrubbed(m, s.chain[i].off, s.chain[i].len, secure), r, Offs(s.chain))
    ensures PayloadsKept(s.chain, m, r, s.chain[i].off)
    ensures s.chain[i].off + s.chain[i].len <= size
    ensures secure ==> forall k :: s.chain[i].off <= k < s.chain[i].off + s.chain[i].len ==> r[k] == 0
  {
    hide Tiles, Lists, Coalesced, Offs;
    var c, x := s.chain, s.chain[i];
    assert x.off + x.len <= size by { TilesBounds(c, size); }
    var z := Scrubbed(m, x.off, x.len, secure);
    forall e, k | e in c && e.used && e.off != x.off && e.off <= k < e.off + e.len && 0 <= k < |m| ensures r[k] == m[k] {
      PayloadOutside(c, size, e, k);
      OtherPayload(c, size, x, e, k);
      assert z[k] == m[k];
    }
    if secure {
      forall k | x.off <= k < x.off + x.len ensures r[k] == 0 {
        PayloadOutside(c, size, x, k);
        assert z[k] == 0;
      }
    }
  }

  /** Position of the used block whose payload contains offset k, |c| if there is none. */
  function Holder(c: seq<Extent>, k: int): (i: nat)
    ensures i <= |c|
    ensures i < |c| ==> c[i].used && c[i].off <= k < c[i].off + c[i].len
    ensures i == |c| ==> forall j :: 0 <= j < |c| && c[j].used ==> !(c[j].off <= k < c[j].off + c[j].len)
  {
    if c == [] then 0
    else if c[0].used && c[0].off <= k < c[0].off + c[0].len then 0
    else 1 + Holder(c[1..], k)
  }

  /** The block at offset x contains offset k. */
  ghost predicate Contains(c: seq<Extent>, x: nat, k: int) {
    var i := IndexOf(c, x);
    i < |c| && c[i].off <= k < c[i].off + c[i].len
  }

  /** There is only one such block. */
  lemma HolderIs(c: seq<Extent>, size: nat, k: int, i: nat)
    requires Tiles(c, size) && i < |c| && c[i].used && c[i].off <= k < c[i].off + c[i].len
    ensures Holder(c, k) == i
  {
    TilesBounds(c, size);
    var h := Holder(c, k);
    assert h < |c|;
    assert h < i || h == i || i < h;
  }

  /** A live offset is inside the heap, and a free takes it off the used list. */
  lemma LiveOffset(s: Layout, size: nat, x: nat)
    requires Inv(s, size) && x in s.used
    ensures 24 <= x < size && IndexOf(s.chain, x) < |s.chain| && s.chain[IndexOf(s.chain, x)].used
    ensures x !in Step(s, Free1(x)).used
  {
    hide Coalesced, Tiles;
    UsedListed(s, size, x);
    TilesBounds(s.chain, size);
    PositiveLength(s.chain, size, IndexOf(s.chain, x));
    WithoutMembers(s.used, x);
  }

  lemma PositiveLength(c: seq<Extent>, size: nat, i: nat)
    requires Tiles(c, size) && i < |c|
    ensures c[i].len > 0
  {}

  /** So is every offset of its payload, which no other live block holds. */
  lemma LivePayload(s: Layout, size: nat, e: Extent, k: int)
    requires Inv(s, size) && e in s.chain && e.used && e.off <= k < e.off + e.len
    ensures 24 <= k < size && e.off in s.used
    ensures Holder(s.chain, k) < |s.chain| && s.chain[Holder(s.chain, k)] == e && Holder(s.chain, k) == IndexOf(s.chain, e.off)
  {
    hide Coalesced, Holder;
    TilesBounds(s.chain, size);
    var i :| 0 <= i < |s.chain| && s.chain[i] == e;
    HolderIs(s.chain, size, k, i);
    UsedListed(s, size, e.off);
  }

  /** The 24 bytes before offset x are zero. */
  ghost predicate Blank(m: seq<byte>, x: nat) {
    24 <= x <= |m| && forall k :: x - 24 <= k < x ==> m[k] == 0
  }

  /** The headers that block i and a free neighbour lose when they merge are zero. */
  ghost predicate AbsorbedBlank(c: seq<Extent>, i: nat, m: seq<byte>) {
    && i < |c|
    && (FreeAt(c, i - 1) ==> Blank(m, c[i].off))
    && (FreeAt(c, i + 1) ==> Blank(m, c[i + 1].off))
  }

  /** The same, said of the free blocks that touch block e. */
  ghost predicate HeadersBlank(c: seq<Extent>, e: Extent, m: seq<byte>) {
    forall d :: d in c && !d.used ==>
      && (d.off + d.len + 24 == e.off ==> Blank(m, e.off))
      && (e.off + e.len + 24 == d.off ==> Blank(m, d.off))
  }

  lemma AbsorbedHeaders(s: Layout, size: nat, i: nat, m: seq<byte>)
    requires Inv(s, size) && AbsorbedBlank(s.chain, i, m)
    ensures HeadersBlank(s.chain, s.chain[i], m)
  {
    hide Lists, Coalesced, Blank, Tiles;
    var c := s.chain;
    forall d | d in c && !d.used
      ensures c[i].off == d.off + d.len + 24 ==> Blank(m, c[i].off)
      ensures c[i].off + c[i].len + 24 == d.off ==> Blank(m, d.off)
    {
      var j :| 0 <= j < |c| && c[j] == d;
      Touching(c, size, i, j);
    }
  }

  lemma Touching(c: seq<Extent>, size: nat, i: nat, j: nat)
    requires Tiles(c, size) && i < |c| && j < |c|
    ensures c[j].off + c[j].len + 24 == c[i].off ==> j + 1 == i
    ensures c[i].off + c[i].len + 24 == c[j].off ==> j == i + 1
  {
    TilesBounds(c, size);
    if i + 1 < |c| { PositiveLength(c, size, i + 1); }
    if j + 1 < |c| { PositiveLength(c, size, j + 1); }
    hide Tiles;
  }

  lemma SamePayloads(c: seq<Extent>, m: seq<byte>)
    ensures PayloadsKept(c, m, m, 0)
  {}

  /** The single header HeapCreate writes. */
  lemma CreatedRep(h: map<nat, Block>, size: nat)
    requires size > START && h == map[START := Block(FREE, size - HEADER, 0, 0, 0, 0)]
    ensures Rep(h, Created(size)) && h.Keys == Offs(Created(size).chain)
  {
    var s := Created(size);
    assert ChainAt(h, s.chain, 0) && LinkAt(h, s.free, 0);
    assert s.chain[0].off == START;
  }

  /** What an allocation comes to once the search has ended at free-list position k. */
  lemma AllocIs(s: Layout, req: Request, k: nat)
    requires req.Legal() && k <= |s.free| && FirstFit(s, req, 0) == FirstFit(s, req, k)
    requires k < |s.free| ==> Fits(s.chain, s.free[k], req)
    ensures FirstFit(s, req, 0) == k
    ensures k == |s.free| ==> Alloc(s, req) == s && Allocated(s, req) == 0
    ensures k < |s.free| ==> Alloc(s, req) == Take(s, req, k)
    ensures k < |s.free| ==>
      Allocated(s, req) == (if req.Plain? then s.free[k] else Spot(s.chain, IndexOf(s.chain, s.free[k]), req.alignment))
  {}

  /** The aligned offset stays close to the block, so no 32-bit sum wraps around. */
  lemma SpotNear(c: seq<Extent>, size: nat, i: nat, a: nat)
    requires Tiles(c, size) && i < |c| && 0 < a <= PAGE_SIZE
    ensures var x, up := c[i].off, NextMultiple(c[i].off, a);
            && x < up <= x + a
            && Spot(c, i, a) == (if i == 0 then x + Bump(up - x, a) else up)
            && Spot(c, i, a) - x <= PAGE_SIZE
            && x + c[i].len <= size
  {
    hide NextMultiple, Bump, Spans;
    TilesBounds(c, size);
    NextMultipleAbove(c[i].off, a);
    if i == 0 {
      TilesStart(c, size);
      FirstGap(NextMultiple(START, a) - START, a);
    }
  }

  lemma BumpStep(gap: nat, a: nat)
    requires a > 0
    ensures gap < HEADER + MIN_FREE ==> Bump(gap, a) == Bump(gap + a, a)
    ensures gap >= HEADER + MIN_FREE ==> Bump(gap, a) == gap
  {}

  lemma SplitHas(s: Layout, i: nat, n: nat)
    requires i < |s.chain| && 0 < n <= s.chain[i].len
    ensures s.chain[i].off in Offs(Split(s, i, n).chain)
  {
    SplitChain(s, i, n);
    assert Split(s, i, n).chain[i].off == s.chain[i].off;
  }

  lemma OffAtZero(c: seq<Extent>, i: nat)
    requires Apart(c) && i < |c|
    ensures OffAt(c, i - 1) == 0 <==> i == 0
  {}

  lemma TilesStart(c: seq<Extent>, size: nat)
    requires Tiles(c, size)
    ensures c[0].off == START
  {}

  lemma FirstGap(gap: nat, a: nat)
    requires 0 < a <= PAGE_SIZE && gap <= a && START + gap >= a
    ensures Bump(gap, a) <= PAGE_SIZE
  {}
}
