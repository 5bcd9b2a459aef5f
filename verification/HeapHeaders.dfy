/** Block headers: how they are laid out in memory and what it means that the headers
    in memory show a given layout. */
module HeapHeaders {
  import opened Bytes
  import opened HeapLayout

  const FREE: nat := 0   // HEAP_BLOCK_FREE
  const USED: nat := 1   // HEAP_BLOCK_USED

  datatype Field = State | Size | PPrev | PNext | VPrev | VNext {
    /** Position of the field in the packed header. */
    function At(): nat {
      match this
      case State => 0 case Size => 4 case PPrev => 8 case PNext => 12 case VPrev => 16 case VNext => 20
    }
  }

  datatype Block = Block(state: nat, size: nat, pprev: nat, pnext: nat, vprev: nat, vnext: nat) {
    function Get(f: Field): nat {
      match f
      case State => state case Size => size case PPrev => pprev
      case PNext => pnext case VPrev => vprev case VNext => vnext
    }

    function With(f: Field, v: nat): Block {
      match f
      case State => this.(state := v)
      case Size => this.(size := v)
      case PPrev => this.(pprev := v)
      case PNext => this.(pnext := v)
      case VPrev => this.(vprev := v)
      case VNext => this.(vnext := v)
    }
  }

  /** The header of the block at offset x ends where its payload begins. */
  function GetField(m: seq<byte>, x: nat, f: Field): (v: nat)
    requires HEADER <= x <= |m|
  {
    Read32(m, x - HEADER + f.At())
  }

  function SetField(m: seq<byte>, x: nat, f: Field, v: nat): seq<byte>
    requires HEADER <= x <= |m| && v < U32
  {
    Write32(m, x - HEADER + f.At(), v)
  }

  function Decode(m: seq<byte>, x: nat): Block
    requires HEADER <= x <= |m|
  {
    Block(GetField(m, x, State), GetField(m, x, Size), GetField(m, x, PPrev),
          GetField(m, x, PNext), GetField(m, x, VPrev), GetField(m, x, VNext))
  }

  lemma SetFieldSame(m: seq<byte>, x: nat, f: Field, v: nat)
    requires HEADER <= x <= |m| && v < U32
    ensures Decode(SetField(m, x, f, v), x) == Decode(m, x).With(f, v)
  {
    var r := SetField(m, x, f, v);
    forall g: Field | g != f ensures GetField(r, x, g) == GetField(m, x, g) {
      Read32Frame(m, r, x - HEADER + g.At());
    }
  }

  /** A header depends on its own 24 bytes only. */
  lemma DecodeFrame(m: seq<byte>, r: seq<byte>, x: nat)
    requires HEADER <= x <= |m| == |r|
    requires forall k :: x - HEADER <= k < x ==> r[k] == m[k]
    ensures Decode(r, x) == Decode(m, x)
  {
    forall g: Field ensures GetField(r, x, g) == GetField(m, x, g) {
      Read32Frame(m, r, x - HEADER + g.At());
    }
  }

  lemma SliceOfSlice(m: seq<byte>, p: nat, q: nat, a: nat)
    requires p + a + 4 <= q <= |m|
    ensures m[p..q][a..a + 4] == m[p + a..p + a + 4]
  {
    var s, t := m[p..q][a..a + 4], m[p + a..p + a + 4];
    assert s[0] == t[0] && s[1] == t[1] && s[2] == t[2] && s[3] == t[3];
  }

  /** A copied header says the same. */
  lemma DecodeCopy(m: seq<byte>, r: seq<byte>, x: nat, t: nat)
    requires HEADER <= x <= |m| && HEADER <= t <= |r|
    requires r[t - HEADER..t] == m[x - HEADER..x]
    ensures Decode(r, t) == Decode(m, x)
  {
    hide Read32;
    forall g: Field ensures GetField(r, t, g) == GetField(m, x, g) {
      var a := g.At();
      SliceOfSlice(r, t - HEADER, t, a);
      SliceOfSlice(m, x - HEADER, x, a);
      Read32Copy(m, r, x - HEADER + a, t - HEADER + a);
    }
  }

  /** Header places inside a memory of the given size that do not overlap. */
  ghost predicate Separate(live: set<nat>, size: nat) {
    && (forall x :: x in live ==> HEADER <= x <= size)
    && (forall x, y :: x in live && y in live && x < y ==> x + HEADER <= y)
  }

  /** These headers stand in memory. */
  ghost predicate Stored(m: seq<byte>, h: map<nat, Block>) {
    && Separate(h.Keys, |m|)
    && forall x {:trigger Decode(m, x)} :: x in h ==> Decode(m, x) == h[x]
  }

  ghost predicate InHeader(live: set<nat>, k: nat) {
    exists x :: x in live && x <= k + HEADER && k < x
  }

  /** Only bytes of the given headers may differ. */
  ghost predicate SameOutside(m: seq<byte>, r: seq<byte>, live: set<nat>) {
    |r| == |m| && forall k :: 0 <= k < |m| && !InHeader(live, k) ==> r[k] == m[k]
  }

  lemma DecodeSet(m: seq<byte>, x: nat, f: Field, v: nat, y: nat)
    requires HEADER <= x <= |m| && v < U32
    requires HEADER <= y <= |m| && (y == x || x + HEADER <= y || y + HEADER <= x)
    ensures Decode(SetField(m, x, f, v), y) == if y == x then Decode(m, x).With(f, v) else Decode(m, y)
  {
    if y == x { SetFieldSame(m, x, f, v); } else { DecodeFrame(m, SetField(m, x, f, v), y); }
  }

  lemma StoredSet(m: seq<byte>, h: map<nat, Block>, x: nat, f: Field, v: nat)
    requires Stored(m, h) && x in h && v < U32
    ensures Stored(SetField(m, x, f, v), h[x := h[x].With(f, v)])
    ensures SameOutside(m, SetField(m, x, f, v), h.Keys)
  {
    var r, g := SetField(m, x, f, v), h[x := h[x].With(f, v)];
    assert g.Keys == h.Keys;
    forall y | y in g ensures Decode(r, y) == g[y] {
      assert x < y || y < x || y == x;
      DecodeSet(m, x, f, v, y);
    }
    forall k | 0 <= k < |m| && !InHeader(h.Keys, k) ensures r[k] == m[k] {
      assert !(x <= k + HEADER && k < x);
    }
  }

  lemma SameOutsideGrows(m: seq<byte>, r: seq<byte>, t: seq<byte>, live: set<nat>, all: set<nat>)
    requires SameOutside(m, r, all) && SameOutside(r, t, live) && live <= all
    ensures SameOutside(m, t, all)
  {
    InHeaderGrows(live, all);
  }

  lemma InHeaderGrows(live: set<nat>, all: set<nat>)
    requires live <= all
    ensures forall k: nat :: InHeader(live, k) ==> InHeader(all, k)
  {
    forall k: nat | InHeader(live, k) ensures InHeader(all, k) {
      var x :| x in live && x <= k + HEADER && k < x;
      assert x in all;
    }
  }

  lemma SameOutsideMore(m: seq<byte>, r: seq<byte>, live: set<nat>, all: set<nat>)
    requires SameOutside(m, r, live) && live <= all
    ensures SameOutside(m, r, all)
  {
    InHeaderGrows(live, all);
  }

  // ------------------------------------------------------------------- physical chain

  /** The header at offset x shows block e with the given physical neighbours. */
  ghost predicate Shows(h: map<nat, Block>, e: Extent, prev: nat, next: nat) {
    && e.off in h
    && h[e.off].size == e.len
    && h[e.off].state == (if e.used then USED else FREE)
    && h[e.off].pprev == prev
    && h[e.off].pnext == next
  }

  function OffAt(c: seq<Extent>, i: int): nat {
    if 0 <= i < |c| then c[i].off else 0
  }

  ghost predicate ChainAt(h: map<nat, Block>, c: seq<Extent>, i: int) {
    0 <= i < |c| && Shows(h, c[i], OffAt(c, i - 1), OffAt(c, i + 1))
  }

  /** The headers show the chain. */
  ghost predicate Phys(h: map<nat, Block>, c: seq<Extent>) {
    forall i :: 0 <= i < |c| ==> ChainAt(h, c, i)
  }

  /** Nothing but list links changed. */
  ghost predicate SamePhys(h: map<nat, Block>, g: map<nat, Block>) {
    && g.Keys == h.Keys
    && forall x :: x in h ==>
         g[x].state == h[x].state && g[x].size == h[x].size && g[x].pprev == h[x].pprev && g[x].pnext == h[x].pnext
  }

  /** Nothing but list links of this block changed. */
  ghost predicate SamePhysAt(h: map<nat, Block>, g: map<nat, Block>, x: nat) {
    x in h && x in g &&
    g[x].state == h[x].state && g[x].size == h[x].size && g[x].pprev == h[x].pprev && g[x].pnext == h[x].pnext
  }

  // ---------------------------------------------------------------------- linked lists

  function At(l: seq<nat>, j: int): nat {
    if 0 <= j < |l| then l[j] else 0
  }

  ghost predicate LinkAt(h: map<nat, Block>, l: seq<nat>, j: int)
    requires 0 <= j < |l| && l[j] in h
  {
    h[l[j]].vprev == At(l, j - 1) && h[l[j]].vnext == At(l, j + 1)
  }

  /** The blocks of l have headers and are linked in that order. */
  ghost predicate Linked(h: map<nat, Block>, l: seq<nat>) {
    && (forall x :: x in l ==> x in h)
    && (forall j :: 0 <= j < |l| ==> LinkAt(h, l, j))
  }

  /** Header field f of block x, and the headers after it is set. */
  ghost function Val(h: map<nat, Block>, x: nat, f: Field): nat {
    if x in h then h[x].Get(f) else 0
  }

  ghost function Upd(h: map<nat, Block>, x: nat, f: Field, v: nat): (g: map<nat, Block>)
    ensures g.Keys == h.Keys
  {
    if x in h then h[x := h[x].With(f, v)] else h
  }

  /** The headers after HeappBlockLink put x in front of the list that starts at `head`. */
  ghost function FrontMap(h: map<nat, Block>, head: nat, x: nat): (g: map<nat, Block>)
    ensures g.Keys == h.Keys
  {
    var g := Upd(Upd(h, x, VNext, head), x, VPrev, 0);
    if head != 0 then Upd(g, head, VPrev, x) else g
  }

  /** The headers after HeappBlockUnlink took x out. */
  ghost function OutMap(h: map<nat, Block>, x: nat): (g: map<nat, Block>)
    ensures g.Keys == h.Keys
  {
    var next, prev := Val(h, x, VNext), Val(h, x, VPrev);
    var g := if next != 0 then Upd(h, next, VPrev, prev) else h;
    if prev != 0 then Upd(g, prev, VNext, next) else g
  }

  lemma FrontLinked(h: map<nat, Block>, l: seq<nat>, x: nat)
    requires Linked(h, l) && Distinct(l) && x !in l && x in h && 0 !in h
    requires At(l, 0) != 0 ==> At(l, 0) in h && At(l, 0) != x
    ensures Linked(FrontMap(h, At(l, 0), x), [x] + l)
  {
    var m, g := [x] + l, FrontMap(h, At(l, 0), x);
    forall j | 0 <= j < |m| ensures m[j] in g && LinkAt(g, m, j) {
      if j > 0 { assert m[j] == l[j - 1] && LinkAt(h, l, j - 1); }
    }
  }

  /** The neighbours of a list entry. */
  lemma Neighbours(h: map<nat, Block>, l: seq<nat>, x: nat) returns (k: nat)
    requires Linked(h, l) && x in l && 0 !in h
    ensures k < |l| && l[k] == x && x in h
    ensures h[x].vprev == At(l, k - 1) && h[x].vnext == At(l, k + 1)
    ensures h[x].vnext != 0 ==> h[x].vnext in h && h[x].vnext in l
    ensures h[x].vprev != 0 ==> h[x].vprev in h && h[x].vprev in l
  {
    k :| 0 <= k < |l| && l[k] == x;
    assert LinkAt(h, l, k);
  }

  /** Links of y after x is taken out. */
  lemma OutVals(h: map<nat, Block>, x: nat, y: nat)
    requires x in h && y in h && y != x && y != 0
    ensures y in OutMap(h, x)
    ensures OutMap(h, x)[y].vprev == if y == h[x].vnext then h[x].vprev else h[y].vprev
    ensures OutMap(h, x)[y].vnext == if y == h[x].vprev then h[x].vnext else h[y].vnext
  {}

  lemma OutLinkedAt(h: map<nat, Block>, g: map<nat, Block>, l: seq<nat>, k: nat, i: nat)
    requires Linked(h, l) && Distinct(l) && k < |l| && i < |l| && i != k && 0 !in h
    requires l[i] in g && LinkAt(h, l, k)
    requires g[l[i]].vprev == if l[i] == h[l[k]].vnext then h[l[k]].vprev else h[l[i]].vprev
    requires g[l[i]].vnext == if l[i] == h[l[k]].vprev then h[l[k]].vnext else h[l[i]].vnext
    ensures g[l[i]].vprev == At(l, if i == k + 1 then k - 1 else i - 1)
    ensures g[l[i]].vnext == At(l, if i == k - 1 then k + 1 else i + 1)
  {
    assert LinkAt(h, l, i);
    assert l[i] != 0;
    assert l[i] == At(l, k + 1) <==> i == k + 1;
    assert l[i] == At(l, k - 1) <==> i == k - 1;
  }

  lemma OutLinked(h: map<nat, Block>, l: seq<nat>, k: nat)
    requires Linked(h, l) && Distinct(l) && k < |l| && 0 !in h
    ensures Linked(OutMap(h, l[k]), Without(l, l[k]))
  {
    hide OutMap, Without;
    WithoutIndex(l, k);
    var m, g := Without(l, l[k]), OutMap(h, l[k]);
    assert LinkAt(h, l, k);
    forall j | 0 <= j < |m| ensures m[j] in g && LinkAt(g, m, j) {
      var i := if j < k then j else j + 1;
      OutVals(h, l[k], l[i]);
      OutLinkedAt(h, g, l, k, i);
      assert m[j] == l[i];
    }
  }

  /** A list none of whose links changed stays linked. */
  lemma LinkedSame(h: map<nat, Block>, g: map<nat, Block>, l: seq<nat>)
    requires Linked(h, l)
    requires forall x :: x in l ==> x in g && g[x].vprev == h[x].vprev && g[x].vnext == h[x].vnext
    ensures Linked(g, l)
  {
    forall j | 0 <= j < |l| ensures LinkAt(g, l, j) { assert LinkAt(h, l, j); }
  }

  ghost function Offs(c: seq<Extent>): set<nat> {
    set i | 0 <= i < |c| :: c[i].off
  }

  /** The headers of a tiling chain do not overlap. */
  lemma ChainSeparate(c: seq<Extent>, size: nat)
    requires Tiles(c, size)
    ensures Separate(Offs(c), size)
    ensures forall i :: 0 <= i < |c| ==> c[i].off in Offs(c)
  {
    TilesBounds(c, size);
    forall x, y | x in Offs(c) && y in Offs(c) && x < y ensures x + HEADER <= y {
      var i :| 0 <= i < |c| && c[i].off == x;
      var j :| 0 <= j < |c| && c[j].off == y;
      assert i < j || j < i;
    }
  }

  /** Outside c[lo..hi] the headers changed in one way only: the neighbours of the stretch
      point to blocks `first` and `last` now. */
  ghost predicate Rejoined(h: map<nat, Block>, g: map<nat, Block>, c: seq<Extent>, lo: nat, hi: nat,
                           first: nat, last: nat)
    requires lo < hi <= |c|
  {
    && (forall i :: 0 <= i < lo - 1 ==> SamePhysAt(h, g, c[i].off))
    && (forall i :: hi < i < |c| ==> SamePhysAt(h, g, c[i].off))
    && (lo > 0 ==> SamePhysAt(Upd(h, c[lo - 1].off, PNext, first), g, c[lo - 1].off))
    && (hi < |c| ==> SamePhysAt(Upd(h, c[hi].off, PPrev, last), g, c[hi].off))
  }

  lemma SpliceBefore(h: map<nat, Block>, g: map<nat, Block>, c: seq<Extent>, lo: nat, hi: nat, z: seq<Extent>, i: nat)
    requires Phys(h, c) && i < lo < hi <= |c| && |z| > 0
    requires Rejoined(h, g, c, lo, hi, z[0].off, z[|z| - 1].off)
    ensures ChainAt(g, c[..lo] + z + c[hi..], i)
  {
    var d := c[..lo] + z + c[hi..];
    assert ChainAt(h, c, i) && d[i] == c[i] && OffAt(d, i - 1) == OffAt(c, i - 1);
    if i + 1 < lo { assert OffAt(d, i + 1) == OffAt(c, i + 1); } else { assert OffAt(d, i + 1) == z[0].off; }
  }

  lemma SpliceAfter(h: map<nat, Block>, g: map<nat, Block>, c: seq<Extent>, lo: nat, hi: nat, z: seq<Extent>, k: nat)
    requires Phys(h, c) && lo < hi <= k < |c| && |z| > 0
    requires Rejoined(h, g, c, lo, hi, z[0].off, z[|z| - 1].off)
    ensures ChainAt(g, c[..lo] + z + c[hi..], k - hi + lo + |z|)
  {
    var d, i := c[..lo] + z + c[hi..], k - hi + lo + |z|;
    assert ChainAt(h, c, k) && d[i] == c[k] && OffAt(d, i + 1) == OffAt(c, k + 1);
    if k > hi { assert OffAt(d, i - 1) == OffAt(c, k - 1); } else { assert OffAt(d, i - 1) == z[|z| - 1].off; }
  }

  /** Replacing c[lo..hi] by z: the chain is shown if the headers of z are right. */
  lemma PhysSplice(h: map<nat, Block>, g: map<nat, Block>, c: seq<Extent>, lo: nat, hi: nat, z: seq<Extent>)
    requires Phys(h, c) && lo < hi <= |c| && |z| > 0
    requires Rejoined(h, g, c, lo, hi, z[0].off, z[|z| - 1].off)
    requires forall i :: lo <= i < lo + |z| ==> ChainAt(g, c[..lo] + z + c[hi..], i)
    ensures Phys(g, c[..lo] + z + c[hi..])
  {
    var d := c[..lo] + z + c[hi..];
    forall i | 0 <= i < |d| ensures ChainAt(g, d, i) {
      if i < lo { SpliceBefore(h, g, c, lo, hi, z, i); }
      else if i >= lo + |z| { SpliceAfter(h, g, c, lo, hi, z, i - |z| - lo + hi); }
    }
  }
}
