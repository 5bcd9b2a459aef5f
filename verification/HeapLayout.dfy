/** The private heap of src/mem.c seen as a value: the blocks in physical order and
    the offsets on the free and the used list, in list order.  Every heap operation is a
    function on this value; the class in Heap.dfy is proved to compute these functions
    on the real headers. */
module HeapLayout {
  const HEADER: nat := 24     // sizeof(HEAP_BLOCK)
  const MIN_FREE: nat := 16   // MINIMAL_FREE_BLOCK_SIZE
  const START: nat := HEADER
  const PAGE_SIZE: nat := 4096

  /** One block: `off` is the offset of its payload, `len` the payload size. */
  datatype Extent = Extent(off: nat, len: nat, used: bool)

  datatype Layout = Layout(chain: seq<Extent>, free: seq<nat>, used: seq<nat>)

  /** The two kinds of allocation request. */
  datatype Request = Plain(n: nat) | Aligned(n: nat, alignment: nat) {
    ghost predicate Legal() {
      n > 0 && (Aligned? ==> alignment > 0)
    }
  }

  // ---------------------------------------------------------------- invariant

  /** Non-empty blocks, one right after the other, from payload offset `from` up to `to`. */
  ghost predicate Spans(c: seq<Extent>, from: nat, to: nat) {
    && |c| > 0
    && c[0].off == from
    && c[|c| - 1].off + c[|c| - 1].len == to
    && (forall i :: 0 <= i < |c| ==> c[i].len > 0)
    && (forall i, j :: 0 <= i && j == i + 1 && j < |c| ==> c[j].off == c[i].off + c[i].len + HEADER)
  }

  /** The chain covers [0, size) without gap or overlap, headers included. */
  ghost predicate Tiles(c: seq<Extent>, size: nat) {
    Spans(c, START, size)
  }

  /** No two physical neighbours are both free. */
  ghost predicate Coalesced(c: seq<Extent>) {
    forall i, j :: 0 <= i && j == i + 1 && j < |c| ==> c[i].used || c[j].used
  }

  ghost predicate Distinct(l: seq<nat>) {
    forall i, j :: 0 <= i < j < |l| ==> l[i] != l[j]
  }

  ghost predicate HasBlock(c: seq<Extent>, x: nat, used: bool) {
    exists i :: 0 <= i < |c| && c[i].off == x && c[i].used == used
  }

  /** The list holds exactly the blocks of the given state, each once. */
  ghost predicate Lists(l: seq<nat>, c: seq<Extent>, used: bool) {
    && Distinct(l)
    && forall x: nat :: x in l <==> HasBlock(c, x, used)
  }

  /** What holds in the middle of an operation: everything but coalescing. */
  ghost predicate Sound(s: Layout, size: nat) {
    Tiles(s.chain, size) && Lists(s.free, s.chain, false) && Lists(s.used, s.chain, true)
  }

  ghost predicate Inv(s: Layout, size: nat) {
    Sound(s, size) && Coalesced(s.chain)
  }

  // --------------------------------------------------------------- operations

  /** Position of the block at offset x, or |c| when there is none. */
  function IndexOf(c: seq<Extent>, x: nat): (i: nat)
    ensures i <= |c|
    ensures i < |c| ==> c[i].off == x
    ensures i == |c| ==> forall k :: 0 <= k < |c| ==> c[k].off != x
  {
    if c == [] then 0
    else if c[0].off == x then 0
    else 1 + IndexOf(c[1..], x)
  }

  /** List l without x. */
  function Without(l: seq<nat>, x: nat): seq<nat> {
    if l == [] then []
    else if l[0] == x then l[1..]
    else [l[0]] + Without(l[1..], x)
  }

  /** The gap grown by whole alignments until a minimal free block fits in it. */
  function Bump(gap: nat, alignment: nat): (g: nat)
    requires alignment > 0
    ensures g >= gap && g >= HEADER + MIN_FREE
    ensures g == gap || g < HEADER + MIN_FREE + alignment
    decreases HEADER + MIN_FREE - gap
  {
    if gap >= HEADER + MIN_FREE then gap else Bump(gap + alignment, alignment)
  }

  /** The first multiple of the alignment strictly above x. */
  function NextMultiple(x: nat, alignment: nat): nat
    requires alignment > 0
  {
    (x / alignment + 1) * alignment
  }

  /** Offset HeapAllocAligned would return out of block i. */
  function Spot(c: seq<Extent>, i: nat, alignment: nat): (t: nat)
    requires i < |c| && alignment > 0
    ensures t > c[i].off
    ensures i == 0 ==> t >= c[i].off + HEADER + MIN_FREE
  {
    var x := c[i].off;
    var up := NextMultiple(x, alignment);
    NextMultipleAbove(x, alignment);
    if i == 0 then x + Bump(up - x, alignment) else up
  }

  /** The test a free block has to pass. */
  predicate Fits(c: seq<Extent>, x: nat, req: Request)
    requires req.Aligned? ==> req.alignment > 0
  {
    var i := IndexOf(c, x);
    && i < |c|
    && c[i].len >= req.n
    && (req.Aligned? ==> c[i].len >= Spot(c, i, req.alignment) - x + req.n)
  }

  /** Position on the free list of the first block that fits, from position j on. */
  function FirstFit(s: Layout, req: Request, j: nat): (k: nat)
    requires j <= |s.free|
    requires req.Aligned? ==> req.alignment > 0
    ensures j <= k <= |s.free|
    ensures k < |s.free| ==> Fits(s.chain, s.free[k], req)
    ensures forall m :: j <= m < k ==> !Fits(s.chain, s.free[m], req)
    decreases |s.free| - j
  {
    if j == |s.free| || Fits(s.chain, s.free[j], req) then j else FirstFit(s, req, j + 1)
  }

  /** What a free block of which n bytes are taken turns into: the used block, and a free
      rest when a minimal one fits. */
  function Carve(e: Extent, n: nat): (z: seq<Extent>)
    requires n <= e.len
    ensures 1 <= |z| <= 2 && z[0].off == e.off && z[0].used
  {
    if e.len >= n + HEADER + MIN_FREE then
      [Extent(e.off, n, true), Extent(e.off + n + HEADER, e.len - n - HEADER, false)]
    else
      [e.(used := true)]
  }

  /** Free block i ends after n bytes; the rest becomes a free block of its own. */
  function Cut(s: Layout, i: nat, n: nat): Layout
    requires i < |s.chain| && s.chain[i].len >= n + HEADER
  {
    var e := s.chain[i];
    var rest := Extent(e.off + n + HEADER, e.len - n - HEADER, false);
    Layout(s.chain[..i] + [Extent(e.off, n, false), rest] + s.chain[i + 1..], [rest.off] + s.free, s.used)
  }

  /** Block i moves from the free to the used list. */
  function Claim(s: Layout, i: nat): Layout
    requires i < |s.chain|
  {
    var e := s.chain[i];
    Layout(s.chain[..i] + [e.(used := true)] + s.chain[i + 1..], Without(s.free, e.off), [e.off] + s.used)
  }

  /** HeappSplit: take n bytes of free block i, leaving a free block when one fits. */
  function Split(s: Layout, i: nat, n: nat): Layout
    requires i < |s.chain| && 0 < n <= s.chain[i].len
  {
    if s.chain[i].len >= n + HEADER + MIN_FREE then Claim(Cut(s, i, n), i) else Claim(s, i)
  }

  /** First chain position HeappAlign changes: the block itself when the gap becomes a free
      block, the block before it when the gap is given to that one. */
  function AlignFrom(c: seq<Extent>, i: nat, t: nat): (k: nat)
    requires i < |c| && c[i].off < t
    requires i == 0 ==> t >= c[i].off + HEADER + MIN_FREE
    ensures k <= i
  {
    if t >= c[i].off + HEADER + MIN_FREE then i else i - 1
  }

  /** The block left in front of the aligned one. */
  function AlignGap(c: seq<Extent>, i: nat, t: nat): Extent
    requires i < |c| && c[i].off < t
    requires i == 0 ==> t >= c[i].off + HEADER + MIN_FREE
  {
    var gap := t - c[i].off;
    if gap >= HEADER + MIN_FREE then Extent(c[i].off, gap - HEADER, false)
    else c[i - 1].(len := c[i - 1].len + gap)
  }

  /** Free block i starts at t instead; the gap goes to the block before it. */
  function Move(s: Layout, i: nat, t: nat): Layout
    requires 0 < i < |s.chain| && s.chain[i].off < t < s.chain[i].off + s.chain[i].len
  {
    var e, p := s.chain[i], s.chain[i - 1];
    var gap := t - e.off;
    Layout(s.chain[..i - 1] + [p.(len := p.len + gap), Extent(t, e.len - gap, false)] + s.chain[i + 1..],
           [t] + Without(s.free, e.off), s.used)
  }

  /** HeappAlign: make free block i start at t.  The aligned block ends up at chain position
      AlignFrom + 1. */
  function Align(s: Layout, i: nat, t: nat): Layout
    requires i < |s.chain| && s.chain[i].off < t < s.chain[i].off + s.chain[i].len
    requires i == 0 ==> t >= s.chain[i].off + HEADER + MIN_FREE
  {
    var gap := t - s.chain[i].off;
    if gap >= HEADER + MIN_FREE then Cut(s, i, gap - HEADER) else Move(s, i, t)
  }

  /** Allocation out of the block at free-list position k. */
  function Take(s: Layout, req: Request, k: nat): Layout
    requires req.Legal() && k < |s.free| && Fits(s.chain, s.free[k], req)
  {
    var i := IndexOf(s.chain, s.free[k]);
    match req
    case Plain(n) => Split(s, i, n)
    case Aligned(n, a) =>
      var t := Spot(s.chain, i, a);
      Split(Align(s, i, t), AlignFrom(s.chain, i, t) + 1, n)
  }

  function Alloc(s: Layout, req: Request): Layout
    requires req.Legal()
  {
    var k := FirstFit(s, req, 0);
    if k == |s.free| then s else Take(s, req, k)
  }

  /** The offset handed out, 0 for NULL. */
  function Allocated(s: Layout, req: Request): nat
    requires req.Legal()
  {
    var k := FirstFit(s, req, 0);
    if k == |s.free| then 0
    else match req
         case Plain(_) => s.free[k]
         case Aligned(_, a) => Spot(s.chain, IndexOf(s.chain, s.free[k]), a)
  }

  predicate FreeAt(c: seq<Extent>, i: int) {
    0 <= i < |c| && !c[i].used
  }

  function ReleaseLo(c: seq<Extent>, i: nat): (lo: nat)
    requires i < |c|
    ensures lo <= i
  {
    if FreeAt(c, i - 1) then i - 1 else i
  }

  function ReleaseHi(c: seq<Extent>, i: nat): (hi: nat)
    requires i < |c|
    ensures i < hi <= |c|
  {
    if FreeAt(c, i + 1) then i + 2 else i + 1
  }

  /** Size of the blocks in c[lo..hi] when they become one: the inner headers are payload then. */
  function Joined(c: seq<Extent>, lo: nat, hi: nat): nat
    requires lo < hi <= |c|
    decreases hi
  {
    if hi == lo + 1 then c[lo].len else Joined(c, lo, hi - 1) + HEADER + c[hi - 1].len
  }

  /** The chain with c[lo..hi] replaced by one free block. */
  function Merge(c: seq<Extent>, lo: nat, hi: nat): seq<Extent>
    requires lo < hi <= |c|
  {
    c[..lo] + [Extent(c[lo].off, Joined(c, lo, hi), false)] + c[hi..]
  }

  /** HeappFree on used block i: it merges with its free neighbours.  The next one leaves the
      free list; the merged block enters it unless the previous one was on it already. */
  function Release(s: Layout, i: nat): Layout
    requires i < |s.chain|
  {
    var c := s.chain;
    var free := if FreeAt(c, i + 1) then Without(s.free, c[i + 1].off) else s.free;
    Layout(Merge(c, ReleaseLo(c, i), ReleaseHi(c, i)),
           if FreeAt(c, i - 1) then free else [c[i].off] + free,
           Without(s.used, c[i].off))
  }

  /** HeapCreate on an arena that leaves `size` bytes. */
  function Created(size: nat): Layout
    requires size > START
  {
    Layout([Extent(START, size - HEADER, false)], [START], [])
  }

  // ------------------------------------------------------------ list and chain lemmas

  lemma NextMultipleAbove(x: nat, a: nat)
    requires a > 0
    ensures x < NextMultiple(x, a) <= x + a
    ensures NextMultiple(x, a) % a == 0
  {
    assert x == x / a * a + x % a;
    assert NextMultiple(x, a) == x / a * a + a;
    MultipleMod(x / a + 1, a);
  }

  lemma {:induction false} MultipleMod(k: nat, a: nat)
    requires a > 0
    ensures (k * a) % a == 0
  {
    if k > 0 {
      MultipleMod(k - 1, a);
      assert k * a == (k - 1) * a + a;
      AddMod((k - 1) * a, a);
    }
  }

  lemma MulAtLeast(k: int, a: int)
    requires a > 0
    ensures k >= 1 ==> k * a >= a
    ensures k <= -1 ==> k * a <= -a
  {
    if k >= 1 { assert k * a == (k - 1) * a + a; }
    if k <= -1 { assert k * a == (k + 1) * a - a; }
  }

  lemma AddMod(x: nat, a: nat)
    requires a > 0
    ensures (x + a) % a == x % a
  {
    var q, p := x / a, (x + a) / a;
    assert p * a - q * a == a + x % a - (x + a) % a;
    assert (p - q - 1) * a == x % a - (x + a) % a;
    MulAtLeast(p - q - 1, a);
  }

  lemma {:induction false} BumpMod(gap: nat, a: nat, base: nat)
    requires a > 0
    ensures (base + Bump(gap, a)) % a == (base + gap) % a
    decreases HEADER + MIN_FREE - gap
  {
    if gap < HEADER + MIN_FREE {
      BumpMod(gap + a, a, base);
      AddMod(base + gap, a);
    }
  }

  lemma {:induction false} WithoutIndex(l: seq<nat>, k: nat)
    requires Distinct(l) && k < |l|
    ensures Without(l, l[k]) == l[..k] + l[k + 1..]
  {
    if k > 0 {
      assert l[1..][k - 1] == l[k];
      WithoutIndex(l[1..], k - 1);
      assert l[1..][..k - 1] == l[1..k];
      assert [l[0]] + l[1..k] == l[..k];
    }
  }

  lemma {:induction false} WithoutMembers(l: seq<nat>, x: nat)
    requires Distinct(l)
    ensures Distinct(Without(l, x))
    ensures forall y :: y in Without(l, x) <==> y in l && y != x
    ensures x !in l ==> Without(l, x) == l
  {
    if x in l {
      var k :| 0 <= k < |l| && l[k] == x;
      WithoutIndex(l, k);
      forall y ensures y in Without(l, x) <==> y in l && y != x {
        if y in l && y != x {
          var m :| 0 <= m < |l| && l[m] == y;
          if m < k { assert l[..k][m] == y; } else { assert l[k + 1..][m - k - 1] == y; }
        }
      }
    } else {
      WithoutAbsent(l, x);
    }
  }

  lemma {:induction false} WithoutAbsent(l: seq<nat>, x: nat)
    requires x !in l
    ensures Without(l, x) == l
  {
    if l != [] {
      WithoutAbsent(l[1..], x);
    }
  }

  /** Blocks are ordered and disjoint, header included. */
  lemma {:induction false} TilesOrdered(c: seq<Extent>, size: nat, i: nat, j: nat)
    requires Tiles(c, size) && i < j < |c|
    ensures c[i].off + c[i].len + HEADER <= c[j].off
    decreases j - i
  {
    if j > i + 1 {
      TilesOrdered(c, size, i, j - 1);
      assert c[j].off == c[j - 1].off + c[j - 1].len + HEADER;
    }
  }

  lemma TilesBounds(c: seq<Extent>, size: nat)
    requires Tiles(c, size)
    ensures forall i, j :: 0 <= i < j < |c| ==> c[i].off + c[i].len + HEADER <= c[j].off
    ensures forall i :: 0 <= i < |c| ==> START <= c[i].off && c[i].off + c[i].len <= size
    ensures forall i :: 0 <= i < |c| ==> IndexOf(c, c[i].off) == i
  {
    forall i, j | 0 <= i < j < |c| ensures c[i].off + c[i].len + HEADER <= c[j].off {
      TilesOrdered(c, size, i, j);
    }
  }

  lemma HasBlockParts(a: seq<Extent>, y: seq<Extent>, b: seq<Extent>)
    ensures forall x: nat, u: bool ::
      HasBlock(a + y + b, x, u) <==> HasBlock(a, x, u) || HasBlock(y, x, u) || HasBlock(b, x, u)
  {
    var c := a + y + b;
    forall x: nat, u: bool
      ensures HasBlock(c, x, u) <==> HasBlock(a, x, u) || HasBlock(y, x, u) || HasBlock(b, x, u)
    {
      if i :| 0 <= i < |a| && a[i].off == x && a[i].used == u { assert c[i] == a[i]; }
      if i :| 0 <= i < |y| && y[i].off == x && y[i].used == u { assert c[|a| + i] == y[i]; }
      if i :| 0 <= i < |b| && b[i].off == x && b[i].used == u { assert c[|a| + |y| + i] == b[i]; }
    }
  }

  /** A stretch of the chain may be replaced by one that covers the same bytes. */
  lemma EditTiles(a: seq<Extent>, y: seq<Extent>, b: seq<Extent>, z: seq<Extent>, size: nat)
    requires Tiles(a + y + b, size) && |y| > 0
    requires Spans(z, y[0].off, y[|y| - 1].off + y[|y| - 1].len)
    ensures Tiles(a + z + b, size)
  {
    var c, d := a + y + b, a + z + b;
    assert c[|a|] == y[0] && c[|a| + |y| - 1] == y[|y| - 1];
    forall i, j | 0 <= i && j == i + 1 && j < |d|
      ensures d[j].off == d[i].off + d[i].len + HEADER
    {
      var shift := |z| - |y|;
      if j < |a| { assert d[i] == c[i] && d[j] == c[j]; }
      else if j == |a| { assert i < |a| ==> d[i] == c[i]; }
      else if j < |a| + |z| { assert d[i] == z[i - |a|] && d[j] == z[j - |a|]; }
      else if i >= |a| + |z| { assert d[i] == c[i - shift] && d[j] == c[j - shift]; }
      else { assert d[i] == z[|z| - 1] && d[j] == c[j - shift]; }
    }
    forall i | 0 <= i < |d| ensures d[i].len > 0 {
      if i < |a| { assert d[i] == c[i]; }
      else if i < |a| + |z| { assert d[i] == z[i - |a|]; }
      else { assert d[i] == c[i - |z| + |y|]; }
    }
    if b == [] { assert d[|d| - 1] == z[|z| - 1]; } else { assert d[|d| - 1] == c[|c| - 1]; }
    if a == [] { assert d[0] == z[0]; } else { assert d[0] == c[0]; }
  }

  /** The list follows such a replacement when it drops the blocks of y and gains those of z. */
  lemma EditLists(a: seq<Extent>, y: seq<Extent>, b: seq<Extent>, z: seq<Extent>, size: nat,
                  l: seq<nat>, m: seq<nat>, used: bool)
    requires Tiles(a + y + b, size) && Lists(l, a + y + b, used)
    requires Distinct(m)
    requires forall x: nat :: x in m <==> (x in l && !HasBlock(y, x, used)) || HasBlock(z, x, used)
    ensures Lists(m, a + z + b, used)
  {
    hide HasBlock, Tiles, Distinct;
    HasBlockParts(a, y, b);
    HasBlockParts(a, z, b);
    forall x: nat ensures x in m <==> HasBlock(a + z + b, x, used) {
      OnlyThere(a, y, b, size, x, used);
      assert x in l <==> HasBlock(a + y + b, x, used);
    }
  }

  /** A block in the middle of the chain is not elsewhere in it. */
  lemma OnlyThere(a: seq<Extent>, y: seq<Extent>, b: seq<Extent>, size: nat, x: nat, used: bool)
    requires Tiles(a + y + b, size)
    ensures HasBlock(y, x, used) ==> !HasBlock(a, x, used) && !HasBlock(b, x, used)
  {
    hide Tiles;
    var c := a + y + b;
    TilesBounds(c, size);
    if HasBlock(y, x, used) {
      var i :| 0 <= i < |y| && y[i].off == x;
      assert c[|a| + i] == y[i];
      forall k | 0 <= k < |a| ensures a[k].off != x { assert c[k] == a[k]; }
      forall k | 0 <= k < |b| ensures b[k].off != x { assert c[|a| + |y| + k] == b[k]; }
    }
  }

  /** Blocks of one or two extents, spelled out. */
  lemma HasBlockSmall(p: Extent, q: Extent)
    ensures forall x: nat, u: bool :: HasBlock([p], x, u) <==> p.off == x && p.used == u
    ensures forall x: nat, u: bool ::
      HasBlock([p, q], x, u) <==> (p.off == x && p.used == u) || (q.off == x && q.used == u)
  {
    assert [p][0] == p && [p, q][0] == p && [p, q][1] == q;
  }

  /** An offset strictly inside a block is on neither list. */
  lemma InsideIsFresh(s: Layout, size: nat, i: nat, x: nat)
    requires Sound(s, size) && i < |s.chain|
    requires s.chain[i].off < x < s.chain[i].off + s.chain[i].len + HEADER
    ensures x !in s.free && x !in s.used
  {
    TilesBounds(s.chain, size);
    assert !HasBlock(s.chain, x, true) && !HasBlock(s.chain, x, false);
  }

  /** Replacing y by z in the chain, with matching changes to both lists, keeps the heap sound. */
  lemma Edit(s: Layout, size: nat, a: seq<Extent>, y: seq<Extent>, b: seq<Extent>, z: seq<Extent>,
             free: seq<nat>, used: seq<nat>)
    requires Sound(s, size) && s.chain == a + y + b && |y| > 0
    requires Spans(z, y[0].off, y[|y| - 1].off + y[|y| - 1].len)
    requires Distinct(free) && Distinct(used)
    requires forall x: nat :: x in free <==> (x in s.free && !HasBlock(y, x, false)) || HasBlock(z, x, false)
    requires forall x: nat :: x in used <==> (x in s.used && !HasBlock(y, x, true)) || HasBlock(z, x, true)
    ensures Sound(Layout(a + z + b, free, used), size)
  {
    EditTiles(a, y, b, z, size);
    EditLists(a, y, b, z, size, s.free, free, false);
    EditLists(a, y, b, z, size, s.used, used, true);
  }

  /** A block of the chain is on the list of its state and not on the other. */
  lemma OnItsList(s: Layout, size: nat, i: nat)
    requires Sound(s, size) && i < |s.chain|
    ensures s.chain[i].off in s.free <==> !s.chain[i].used
    ensures s.chain[i].off in s.used <==> s.chain[i].used
    ensures Distinct(s.free) && Distinct(s.used)
  {
    TilesBounds(s.chain, size);
    assert HasBlock(s.chain, s.chain[i].off, s.chain[i].used);
    assert !HasBlock(s.chain, s.chain[i].off, !s.chain[i].used);
  }

  lemma CutSound(s: Layout, size: nat, i: nat, n: nat)
    requires Sound(s, size) && FreeAt(s.chain, i) && n > 0 && s.chain[i].len > n + HEADER
    ensures Sound(Cut(s, i, n), size)
  {
    hide HasBlock, Lists, Without, Spans;
    var c, e := s.chain, s.chain[i];
    var a, b := c[..i], c[i + 1..];
    var z := [Extent(e.off, n, false), Extent(e.off + n + HEADER, e.len - n - HEADER, false)];
    assert c == a + [e] + b;
    OnItsList(s, size, i);
    HasBlockSmall(e, e);
    HasBlockSmall(z[0], z[1]);
    InsideIsFresh(s, size, i, z[1].off);
    Edit(s, size, a, [e], b, z, [z[1].off] + s.free, s.used);
  }

  lemma ClaimSound(s: Layout, size: nat, i: nat)
    requires Sound(s, size) && FreeAt(s.chain, i)
    ensures Sound(Claim(s, i), size)
  {
    hide HasBlock, Lists, Without;
    var c, e := s.chain, s.chain[i];
    var a, b := c[..i], c[i + 1..];
    var z := [e.(used := true)];
    assert c == a + [e] + b;
    OnItsList(s, size, i);
    HasBlockSmall(e, e);
    HasBlockSmall(z[0], e);
    WithoutMembers(s.free, e.off);
    Edit(s, size, a, [e], b, z, Without(s.free, e.off), [e.off] + s.used);
  }

  lemma MoveSound(s: Layout, size: nat, i: nat, t: nat)
    requires Sound(s, size) && 0 < i && FreeAt(s.chain, i) && s.chain[i - 1].used
    requires s.chain[i].off < t < s.chain[i].off + s.chain[i].len
    ensures Sound(Move(s, i, t), size)
  {
    hide HasBlock, Lists, Without;
    var c, e, p := s.chain, s.chain[i], s.chain[i - 1];
    var a, b := c[..i - 1], c[i + 1..];
    var gap := t - e.off;
    var z := [p.(len := p.len + gap), Extent(t, e.len - gap, false)];
    assert c == a + [p, e] + b;
    OnItsList(s, size, i);
    OnItsList(s, size, i - 1);
    HasBlockSmall(p, e);
    HasBlockSmall(z[0], z[1]);
    InsideIsFresh(s, size, i, t);
    WithoutMembers(s.free, e.off);
    Edit(s, size, a, [p, e], b, z, [t] + Without(s.free, e.off), s.used);
  }

  lemma ReleaseAloneSound(s: Layout, size: nat, i: nat)
    requires Sound(s, size) && i < |s.chain| && s.chain[i].used
    requires !FreeAt(s.chain, i - 1) && !FreeAt(s.chain, i + 1)
    ensures Sound(Release(s, i), size)
  {
    hide HasBlock, Lists, Without;
    var c, e := s.chain, s.chain[i];
    var a, b := c[..i], c[i + 1..];
    var z := [e.(used := false)];
    assert c == a + [e] + b;
    OnItsList(s, size, i);
    HasBlockSmall(e, e);
    HasBlockSmall(z[0], e);
    WithoutMembers(s.used, e.off);
    assert Release(s, i) == Layout(a + z + b, [e.off] + s.free, Without(s.used, e.off));
    Edit(s, size, a, [e], b, z, [e.off] + s.free, Without(s.used, e.off));
  }

  lemma ReleaseNextSound(s: Layout, size: nat, i: nat)
    requires Sound(s, size) && i < |s.chain| && s.chain[i].used
    requires !FreeAt(s.chain, i - 1) && FreeAt(s.chain, i + 1)
    ensures Sound(Release(s, i), size)
  {
    hide HasBlock, Lists, Without;
    var c, e, q := s.chain, s.chain[i], s.chain[i + 1];
    var a, b := c[..i], c[i + 2..];
    var z := [Extent(e.off, e.len + HEADER + q.len, false)];
    var free := [e.off] + Without(s.free, q.off);
    assert c == a + [e, q] + b;
    OnItsList(s, size, i);
    OnItsList(s, size, i + 1);
    HasBlockSmall(e, q);
    HasBlockSmall(z[0], e);
    WithoutMembers(s.used, e.off);
    WithoutMembers(s.free, q.off);
    assert Joined(c, i, i + 2) == Joined(c, i, i + 1) + HEADER + q.len;
    assert Release(s, i) == Layout(a + z + b, free, Without(s.used, e.off));
    Edit(s, size, a, [e, q], b, z, free, Without(s.used, e.off));
  }

  lemma ReleasePrevSound(s: Layout, size: nat, i: nat)
    requires Sound(s, size) && i < |s.chain| && s.chain[i].used
    requires FreeAt(s.chain, i - 1) && !FreeAt(s.chain, i + 1)
    ensures Sound(Release(s, i), size)
  {
    hide HasBlock, Lists, Without;
    var c, e, p := s.chain, s.chain[i], s.chain[i - 1];
    var a, b := c[..i - 1], c[i + 1..];
    var z := [p.(len := p.len + HEADER + e.len)];
    assert c == a + [p, e] + b;
    OnItsList(s, size, i);
    OnItsList(s, size, i - 1);
    HasBlockSmall(p, e);
    HasBlockSmall(z[0], e);
    WithoutMembers(s.used, e.off);
    assert Joined(c, i - 1, i + 1) == Joined(c, i - 1, i) + HEADER + e.len;
    assert Release(s, i) == Layout(a + z + b, s.free, Without(s.used, e.off));
    Edit(s, size, a, [p, e], b, z, s.free, Without(s.used, e.off));
  }

  lemma HasBlockThree(p: Extent, e: Extent, q: Extent)
    ensures forall x: nat, u: bool :: HasBlock([p, e, q], x, u) <==>
      (p.off == x && p.used == u) || (e.off == x && e.used == u) || (q.off == x && q.used == u)
  {
    var y := [p, e, q];
    assert y[0] == p && y[1] == e && y[2] == q;
  }

  lemma ReleaseBothSound(s: Layout, size: nat, i: nat)
    requires Sound(s, size) && i < |s.chain| && s.chain[i].used
    requires FreeAt(s.chain, i - 1) && FreeAt(s.chain, i + 1)
    ensures Sound(Release(s, i), size)
  {
    hide HasBlock, Lists, Without;
    var c, e, p, q := s.chain, s.chain[i], s.chain[i - 1], s.chain[i + 1];
    var a, b := c[..i - 1], c[i + 2..];
    var y := [p, e, q];
    var z := [p.(len := p.len + HEADER + e.len + HEADER + q.len)];
    assert c == a + y + b;
    OnItsList(s, size, i);
    OnItsList(s, size, i - 1);
    OnItsList(s, size, i + 1);
    HasBlockThree(p, e, q);
    HasBlockSmall(z[0], e);
    WithoutMembers(s.used, e.off);
    WithoutMembers(s.free, q.off);
    assert Joined(c, i - 1, i + 1) == Joined(c, i - 1, i) + HEADER + e.len;
    assert Joined(c, i - 1, i + 2) == Joined(c, i - 1, i + 1) + HEADER + q.len;
    assert Release(s, i) == Layout(a + z + b, Without(s.free, q.off), Without(s.used, e.off));
    Edit(s, size, a, y, b, z, Without(s.free, q.off), Without(s.used, e.off));
  }

  // ------------------------------------------------------- the invariant, step by step

  lemma EditCoalesced(a: seq<Extent>, y: seq<Extent>, b: seq<Extent>, z: seq<Extent>)
    requires Coalesced(a + y + b) && Coalesced(z) && |y| > 0 && |z| > 0
    requires a == [] || a[|a| - 1].used || z[0].used
    requires b == [] || z[|z| - 1].used || b[0].used
    ensures Coalesced(a + z + b)
  {
    var c, d := a + y + b, a + z + b;
    forall i, j | 0 <= i && j == i + 1 && j < |d| ensures d[i].used || d[j].used {
      var shift := |z| - |y|;
      if j < |a| { assert d[i] == c[i] && d[j] == c[j]; }
      else if i >= |a| + |z| { assert d[i] == c[i - shift] && d[j] == c[j - shift]; }
      else if i >= |a| && j < |a| + |z| { assert d[i] == z[i - |a|] && d[j] == z[j - |a|]; }
    }
  }

  /** The neighbours of a free block are used. */
  lemma FreeIsFenced(c: seq<Extent>, i: nat)
    requires Coalesced(c) && FreeAt(c, i)
    ensures i > 0 ==> c[i - 1].used
    ensures i + 1 < |c| ==> c[i + 1].used
  {
    if i > 0 { assert c[i - 1].used; }
    if i + 1 < |c| { assert c[i + 1].used; }
  }

  /** The chain after HeappSplit. */
  lemma SplitChain(s: Layout, i: nat, n: nat)
    requires i < |s.chain| && 0 < n <= s.chain[i].len
    ensures Split(s, i, n).chain == s.chain[..i] + Carve(s.chain[i], n) + s.chain[i + 1..]
    ensures Split(s, i, n).used == [s.chain[i].off] + s.used
  {
    var c := s.chain;
    if c[i].len >= n + HEADER + MIN_FREE {
      var d := Cut(s, i, n).chain;
      assert d[i] == Extent(c[i].off, n, false) && d[..i] == c[..i];
      assert d[i + 1..] == [Carve(c[i], n)[1]] + c[i + 1..];
    }
  }

  lemma SplitKeeps(s: Layout, size: nat, i: nat, n: nat)
    requires Sound(s, size) && FreeAt(s.chain, i) && 0 < n <= s.chain[i].len
    ensures Sound(Split(s, i, n), size)
  {
    if s.chain[i].len >= n + HEADER + MIN_FREE {
      CutSound(s, size, i, n);
      ClaimSound(Cut(s, i, n), size, i);
    } else {
      ClaimSound(s, size, i);
    }
  }

  lemma SplitCoalesced(s: Layout, i: nat, n: nat)
    requires Coalesced(s.chain) && FreeAt(s.chain, i) && 0 < n <= s.chain[i].len
    ensures Coalesced(Split(s, i, n).chain)
  {
    hide Without;
    var c := s.chain;
    FreeIsFenced(c, i);
    SplitChain(s, i, n);
    assert c == c[..i] + [c[i]] + c[i + 1..];
    EditCoalesced(c[..i], [c[i]], c[i + 1..], Carve(c[i], n));
  }

  lemma AlignKeeps(s: Layout, size: nat, i: nat, t: nat)
    requires Inv(s, size) && FreeAt(s.chain, i)
    requires s.chain[i].off < t < s.chain[i].off + s.chain[i].len
    requires i == 0 ==> t >= s.chain[i].off + HEADER + MIN_FREE
    ensures Sound(Align(s, i, t), size)
    ensures AlignFrom(s.chain, i, t) + 1 < |Align(s, i, t).chain|
    ensures Align(s, i, t).chain[AlignFrom(s.chain, i, t) + 1] == Extent(t, s.chain[i].len - (t - s.chain[i].off), false)
    ensures Align(s, i, t).used == s.used
  {
    hide Sound, Coalesced, Without;
    FreeIsFenced(s.chain, i);
    if t >= s.chain[i].off + HEADER + MIN_FREE {
      CutSound(s, size, i, t - s.chain[i].off - HEADER);
    } else {
      assert s.chain[i - 1].used;
      MoveSound(s, size, i, t);
    }
  }

  /** The chain after HeappAlign. */
  lemma AlignChain(s: Layout, i: nat, t: nat)
    requires i < |s.chain| && s.chain[i].off < t < s.chain[i].off + s.chain[i].len
    requires i == 0 ==> t >= s.chain[i].off + HEADER + MIN_FREE
    ensures var c, e := s.chain, s.chain[i];
            var k := AlignFrom(c, i, t);
            && c == c[..k] + c[k..i + 1] + c[i + 1..]
            && Align(s, i, t).chain
               == c[..k] + [AlignGap(c, i, t), Extent(t, e.len - (t - e.off), false)] + c[i + 1..]
  {
    hide Without;
    ThreeParts(s.chain, AlignFrom(s.chain, i, t), i + 1);
  }

  lemma ThreeParts(c: seq<Extent>, lo: nat, hi: nat)
    requires lo <= hi <= |c|
    ensures c == c[..lo] + c[lo..hi] + c[hi..]
  {}

  /** The chain after HeappAlign and HeappSplit: the gap block, then what Carve leaves. */
  lemma AlignSplitChain(s: Layout, i: nat, t: nat, n: nat)
    requires i < |s.chain| && n > 0
    requires s.chain[i].off < t && t - s.chain[i].off + n <= s.chain[i].len
    requires i == 0 ==> t >= s.chain[i].off + HEADER + MIN_FREE
    ensures var c, e := s.chain, s.chain[i];
            var k := AlignFrom(c, i, t);
            && c == c[..k] + c[k..i + 1] + c[i + 1..]
            && Split(Align(s, i, t), k + 1, n).chain
               == c[..k] + ([AlignGap(c, i, t)] + Carve(Extent(t, e.len - (t - e.off), false), n)) + c[i + 1..]
  {
    hide Align, Split, AlignFrom, AlignGap, Carve;
    var c, e := s.chain, s.chain[i];
    var k, g := AlignFrom(c, i, t), AlignGap(c, i, t);
    var moved := Extent(t, e.len - (t - e.off), false);
    var d := Align(s, i, t).chain;
    AlignChain(s, i, t);
    assert d[k + 1] == moved && d[..k + 1] == c[..k] + [g] && d[k + 2..] == c[i + 1..];
    SplitChain(Align(s, i, t), k + 1, n);
  }

  lemma CarveCoalesced(g: Extent, e: Extent, n: nat)
    requires n <= e.len
    ensures Coalesced([g] + Carve(e, n))
  {}

  lemma AlignGapFenced(c: seq<Extent>, i: nat, t: nat)
    requires Coalesced(c) && FreeAt(c, i) && c[i].off < t
    requires i == 0 ==> t >= c[i].off + HEADER + MIN_FREE
    ensures var k := AlignFrom(c, i, t); k == 0 || c[k - 1].used || AlignGap(c, i, t).used
  {
    FreeIsFenced(c, i);
  }

  /** Taking n bytes out of the block Align has moved leaves no two free neighbours. */
  lemma AlignSplitCoalesced(s: Layout, i: nat, t: nat, n: nat)
    requires Coalesced(s.chain) && FreeAt(s.chain, i) && n > 0
    requires s.chain[i].off < t && t - s.chain[i].off + n <= s.chain[i].len
    requires i == 0 ==> t >= s.chain[i].off + HEADER + MIN_FREE
    ensures Coalesced(Split(Align(s, i, t), AlignFrom(s.chain, i, t) + 1, n).chain)
  {
    hide Align, Split, Without, AlignFrom, AlignGap, Carve, Coalesced;
    var c, e := s.chain, s.chain[i];
    var k := AlignFrom(c, i, t);
    AlignSplitChain(s, i, t, n);
    FreeIsFenced(c, i);
    AlignGapFenced(c, i, t);
    CarveCoalesced(AlignGap(c, i, t), Extent(t, e.len - (t - e.off), false), n);
    EditCoalesced(c[..k], c[k..i + 1], c[i + 1..],
                  [AlignGap(c, i, t)] + Carve(Extent(t, e.len - (t - e.off), false), n));
  }

  lemma TakeKeeps(s: Layout, size: nat, req: Request, k: nat)
    requires Inv(s, size) && req.Legal() && k < |s.free| && Fits(s.chain, s.free[k], req)
    ensures Inv(Take(s, req, k), size)
  {
    var i := IndexOf(s.chain, s.free[k]);
    FreeListed(s, size, k);
    match req
    case Plain(n) =>
      SplitKeeps(s, size, i, n);
      SplitCoalesced(s, i, n);
    case Aligned(n, a) =>
      var t := Spot(s.chain, i, a);
      AlignKeeps(s, size, i, t);
      SplitKeeps(Align(s, i, t), size, AlignFrom(s.chain, i, t) + 1, n);
      AlignSplitCoalesced(s, i, t, n);
  }

  /** A free-list entry is a free block of the chain. */
  lemma FreeListed(s: Layout, size: nat, k: nat)
    requires Sound(s, size) && k < |s.free|
    ensures FreeAt(s.chain, IndexOf(s.chain, s.free[k]))
  {
    TilesBounds(s.chain, size);
    assert s.free[k] in s.free;
    assert HasBlock(s.chain, s.free[k], false);
  }

  lemma UsedListed(s: Layout, size: nat, x: nat)
    requires Sound(s, size)
    ensures x in s.used <==> IndexOf(s.chain, x) < |s.chain| && s.chain[IndexOf(s.chain, x)].used
  {
    TilesBounds(s.chain, size);
    assert x in s.used <==> HasBlock(s.chain, x, true);
  }

  /** Every allocation, plain or aligned, keeps the whole invariant. */
  lemma AllocKeeps(s: Layout, size: nat, req: Request)
    requires Inv(s, size) && req.Legal()
    ensures Inv(Alloc(s, req), size)
  {
    var k := FirstFit(s, req, 0);
    if k < |s.free| { TakeKeeps(s, size, req, k); }
  }

  lemma ReleaseCoalesced(s: Layout, i: nat)
    requires Coalesced(s.chain) && i < |s.chain| && s.chain[i].used
    ensures Coalesced(Release(s, i).chain)
  {
    hide Without;
    var c, lo, hi := s.chain, ReleaseLo(s.chain, i), ReleaseHi(s.chain, i);
    if lo < i { FreeIsFenced(c, lo); }
    if hi > i + 1 { FreeIsFenced(c, i + 1); }
    assert c == c[..lo] + c[lo..hi] + c[hi..];
    EditCoalesced(c[..lo], c[lo..hi], c[hi..], [Extent(c[lo].off, Joined(c, lo, hi), false)]);
  }

  /** Freeing a live block keeps the whole invariant. */
  lemma ReleaseKeeps(s: Layout, size: nat, i: nat)
    requires Inv(s, size) && i < |s.chain| && s.chain[i].used
    ensures Inv(Release(s, i), size)
    ensures Release(s, i).used == Without(s.used, s.chain[i].off)
  {
    ReleaseCoalesced(s, i);
    if FreeAt(s.chain, i - 1) {
      if FreeAt(s.chain, i + 1) { ReleaseBothSound(s, size, i); } else { ReleasePrevSound(s, size, i); }
    } else {
      if FreeAt(s.chain, i + 1) { ReleaseNextSound(s, size, i); } else { ReleaseAloneSound(s, size, i); }
    }
  }
}
