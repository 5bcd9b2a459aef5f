/** The private heap of src/mem.c, working on the bytes of its arena.  All blocks are named
    by the offset of their payload, as in the source; 0 means none. */
module Heap {
  import opened Bytes
  import opened HeapLayout
  import opened HeapHeaders
  import opened HeapRuns
  import opened HeapSurgery

  datatype List = FreeList | UsedList {
    function Other(): List {
      match this case FreeList => UsedList case UsedList => FreeList
    }
  }

  /** A pointer argument, as an offset from heap->memory. */
  datatype Pointer = Null | Address(offset: int)

  class PrivateHeap {
    const memory: array<byte>             // heap->memory
    const size: nat                       // heap->size
    var freeList: nat
    var usedList: nat
    ghost var headers: map<nat, Block>    // the headers standing in memory
    ghost var layout: Layout              // the layout they show
    ghost var before: seq<byte>           // memory when the current operation began
    ghost var touched: set<nat>           // blocks whose headers it may have written

    ghost predicate Intact()
      reads this`headers, this`before, this`touched, memory
    {
      && memory.Length == size && size + PAGE_SIZE < U32
      && Stored(memory[..], headers)
      && headers.Keys <= touched
      && SameOutside(before, memory[..], touched)
    }

    /** The headers in memory and the two list heads show a layout that satisfies everything
        but, perhaps, coalescing. */
    ghost predicate Consistent()
      reads this, memory
    {
      && Intact()
      && Sound(layout, size)
      && headers.Keys == Offs(layout.chain)
      && Rep(headers, layout)
      && freeList == At(layout.free, 0)
      && usedList == At(layout.used, 0)
    }

    ghost predicate Valid()
      reads this, memory
    {
      Consistent() && Coalesced(layout.chain)
    }

    // ------------------------------------------------------------- header accesses

    method Load(x: nat, f: Field) returns (v: nat)
      requires Intact() && x in headers
      ensures v == Val(headers, x, f) && v < U32
    {
      v := GetField(memory[..], x, f);
      assert Decode(memory[..], x) == headers[x];
    }

    method Store(x: nat, f: Field, v: nat)
      requires Intact() && x in headers && v < U32
      modifies memory, this`headers
      ensures Intact() && headers == Upd(old(headers), x, f, v)
      ensures forall y :: old(Clear(y)) ==> Clear(y)
      ensures forall y :: old(Clear(y)) && y !in old(headers) && Blank(old(memory[..]), y) ==> Blank(memory[..], y)
    {
      ghost var m := memory[..];
      var p := x - HEADER + f.At();
      memory[p], memory[p + 1], memory[p + 2], memory[p + 3] := Part(v, 0), Part(v, 1), Part(v, 2), Part(v, 3);
      assert memory[..] == SetField(m, x, f, v);
      StoredSet(m, headers, x, f, v);
      SameOutsideGrows(before, m, memory[..], headers.Keys, touched);
      headers := Upd(headers, x, f, v);
    }

    /** The 24 bytes before offset x are a header from now on. */
    ghost method Adopt(x: nat)
      requires Intact() && Separate(headers.Keys + {x}, size)
      modifies this`headers, this`touched
      ensures Intact() && x in headers && headers == old(headers)[x := headers[x]]
      ensures touched == old(touched) + {x}
    {
      headers := headers[x := Decode(memory[..], x)];
      touched := touched + {x};
      assert headers.Keys == old(headers).Keys + {x};
    }

    /** The headers of these blocks are ordinary bytes from now on. */
    ghost method Forget(gone: set<nat>)
      requires Intact()
      modifies this`headers
      ensures Intact() && headers == old(headers) - gone
      ensures forall x :: old(Clear(x)) ==> Clear(x)
    {
      headers := headers - gone;
    }

    function Head(list: List): nat
      reads this
    {
      if list.FreeList? then freeList else usedList
    }

    method SetHead(list: List, x: nat)
      modifies this`freeList, this`usedList
      ensures Head(list) == x && Head(list.Other()) == old(Head(list.Other()))
    {
      if list.FreeList? { freeList := x; } else { usedList := x; }
    }

    // --------------------------------------------------------------- list surgery

    method HeappBlockUnlink(list: List, x: nat)
      requires Intact() && Unlinkable(headers, x)
      modifies memory, this`headers, this`freeList, this`usedList
      ensures Intact() && headers == OutMap(old(headers), x)
      ensures Head(list) == if old(Head(list)) == x then old(headers)[x].vnext else old(Head(list))
      ensures Head(list.Other()) == old(Head(list.Other()))
    {
      hide Intact;
      var next := Load(x, VNext);
      if next != 0 {
        var prev := Load(x, VPrev);
        Store(next, VPrev, prev);
      }
      var prev := Load(x, VPrev);
      if prev != 0 {
        next := Load(x, VNext);
        Store(prev, VNext, next);
      }
      if Head(list) == x {
        next := Load(x, VNext);
        SetHead(list, next);
      }
    }

    method HeappBlockLink(list: List, x: nat)
      requires Intact() && x in headers
      requires Head(list) != 0 ==> Head(list) in headers && Head(list) != x
      modifies memory, this`headers, this`freeList, this`usedList
      ensures Intact() && headers == FrontMap(old(headers), old(Head(list)), x)
      ensures Head(list) == x && Head(list.Other()) == old(Head(list.Other()))
      ensures forall y :: old(Clear(y)) ==> Clear(y)
      ensures forall y :: old(Clear(y)) && y !in old(headers) && Blank(old(memory[..]), y) ==> Blank(memory[..], y)
    {
      hide Intact, Upd, Blank;
      InBounds(x);
      if Head(list) != 0 { InBounds(Head(list)); }
      Store(x, VNext, Head(list));
      Store(x, VPrev, 0);
      if Head(list) != 0 {
        Store(Head(list), VPrev, x);
      }
      SetHead(list, x);
    }

    lemma ArenaSize()
      requires Intact()
      ensures memory.Length == size == |before| && size + PAGE_SIZE < U32
    {}

    lemma InBounds(x: nat)
      requires Intact() && x in headers
      ensures HEADER <= x <= size < U32
    {}

    // ------------------------------------------------------------ splitting and aligning

    // HeappSplit and HeappAlign create a free block behind the first n bytes of block x with
    // the same writes, in the same order: the new header, its list links, its neighbours.

    method WriteNewHeader(x: nat, n: nat)
      requires Intact() && x in headers && x + n + HEADER in headers && Val(headers, x, Size) >= n + HEADER
      modifies memory, this`headers
      ensures Intact() && headers == NewMap(old(headers), x, n)
    {
      hide Intact;
      var newBlock := x + n + HEADER;
      InBounds(x);
      Store(newBlock, State, FREE);
      var len := Load(x, Size);
      Store(newBlock, Size, len - n - HEADER);
      Store(newBlock, PPrev, x);
      var next := Load(x, PNext);
      Store(newBlock, PNext, next);
    }

    method WriteNeighbours(x: nat, n: nat)
      requires Intact() && x in headers && x + n + HEADER in headers
      requires Val(headers, x, PNext) != 0 ==> Val(headers, x, PNext) in headers
      modifies memory, this`headers
      ensures Intact() && headers == JoinMap(old(headers), x, n)
    {
      hide Intact, Upd, Val;
      InBounds(x + n + HEADER);
      var next := Load(x, PNext);
      if next != 0 {
        Store(next, PPrev, x + n + HEADER);
      }
      Store(x, PNext, x + n + HEADER);
      Store(x, Size, n);
    }

    /** Makes room for the header of the rest, and what follows from writing it. */
    ghost method ExpectRest(i: nat, n: nat)
      requires Consistent() && FreeAt(layout.chain, i) && n > 0 && layout.chain[i].len > n + HEADER
      modifies this`headers, this`touched
      ensures var x, u, t := layout.chain[i].off, layout.chain[i].off + n + HEADER, Cut(layout, i, n);
              && Intact() && touched == old(touched) + {u}
              && x in headers && u in headers && headers.Keys == Offs(t.chain)
              && Val(headers, x, Size) == layout.chain[i].len
              && Val(FrontMap(NewMap(headers, x, n), freeList, u), x, PNext) == Val(headers, x, PNext)
              && (Val(headers, x, PNext) != 0 ==> Val(headers, x, PNext) in headers)
              && (freeList != 0 ==> freeList in headers && freeList != u)
              && Rep(CutMap(headers, freeList, x, n), t) && Sound(t, size)
    {
      hide Sound, Rep, Apart, CutMap, NewMap, FrontMap, Val, Intact, Cut, Separate, Offs;
      ghost var h, u := headers, layout.chain[i].off + n + HEADER;
      CutFacts(layout, size, i, n);
      Adopt(u);
      AdoptRep(h, layout, u, headers[u]);
      CutReady(headers, layout, i, n);
      CutRep(headers, layout, i, n);
    }

    method CreateRest(x: nat, n: nat, ghost i: nat)
      requires Consistent() && FreeAt(layout.chain, i) && layout.chain[i].off == x
      requires n > 0 && layout.chain[i].len > n + HEADER
      modifies memory, this`headers, this`touched, this`freeList, this`usedList, this`layout
      ensures Consistent() && layout == Cut(old(layout), i, n)
      ensures touched == old(touched) + {x + n + HEADER}
    {
      hide Sound, Rep, NewMap, JoinMap, FrontMap, Val, Intact, Cut, Offs;
      ghost var t := Cut(layout, i, n);
      CutLists(layout, i, n);
      ExpectRest(i, n);
      WriteNewHeader(x, n);
      HeappBlockLink(FreeList, x + n + HEADER);
      WriteNeighbours(x, n);
      layout := t;
    }

    method MoveToUsed(x: nat, ghost i: nat)
      requires Consistent() && FreeAt(layout.chain, i) && layout.chain[i].off == x
      modifies memory, this`headers, this`freeList, this`usedList, this`layout
      ensures Consistent() && layout == Claim(old(layout), i)
    {
      hide Sound, Rep, Intact, Claim, Offs, OutMap, FrontMap, Apart, Without, Upd;
      ghost var t := Claim(layout, i);
      ClaimReady(headers, layout, size, i);
      ClaimRep(headers, layout, i);
      HeappBlockUnlink(FreeList, x);
      Store(x, State, USED);
      HeappBlockLink(UsedList, x);
      layout := t;
    }

    method HeappSplit(address: nat, nbytes: nat, ghost i: nat)
      requires Consistent() && FreeAt(layout.chain, i) && layout.chain[i].off == address
      requires 0 < nbytes <= layout.chain[i].len
      modifies memory, this`headers, this`touched, this`freeList, this`usedList, this`layout
      ensures Consistent() && layout == Split(old(layout), i, nbytes)
      ensures touched <= old(touched) + Offs(layout.chain)
    {
      hide Sound, Rep, Intact, Claim, Cut, Without, Offs;
      SizeShown(i);
      var len := Load(address, Size);
      if len >= nbytes + HEADER + MIN_FREE {
        CutThere(layout, i, nbytes);
        CreateRest(address, nbytes, i);
      }
      MoveToUsed(address, i);
    }

    lemma SizeShown(i: nat)
      requires Consistent() && i < |layout.chain|
      ensures layout.chain[i].off in headers && Val(headers, layout.chain[i].off, Size) == layout.chain[i].len
      ensures layout.chain[i].off + layout.chain[i].len <= size
    {
      SoundApart(layout, size);
      HeaderOf(headers, layout.chain, i);
      TilesBounds(layout.chain, size);
    }

    /** Copies the header of block x to block t; the two places may overlap. */
    method CopyHeader(x: nat, t: nat)
      requires Intact() && x in headers && t !in headers && Separate(headers.Keys - {x} + {t}, size)
      modifies memory, this`headers, this`touched
      ensures Intact() && headers == Rekey(old(headers), x, t) && touched == old(touched) + {t}
    {
      ghost var m := memory[..];
      ghost var g := Rekey(headers, x, t);
      var tmp := memory[x - HEADER..x];
      forall k | 0 <= k < HEADER {
        memory[t - HEADER + k] := tmp[k];
      }
      assert memory[t - HEADER..t] == tmp == m[x - HEADER..x];
      CopyStored(m, memory[..], headers, x, t);
      SameOutsideMore(before, m, touched, touched + {t});
      SameOutsideGrows(before, m, memory[..], {t}, touched + {t});
      touched := touched + {t};
      headers := g;
    }

    method MoveStart(x: nat, t: nat)
      requires Intact() && x in headers && t < U32 && Unlinkable(headers, x)
      requires Val(headers, x, PPrev) in headers && Val(headers, x, PPrev) != x && Val(headers, x, PNext) != x
      requires Val(headers, x, PNext) != 0 ==> Val(headers, x, PNext) in headers
      modifies memory, this`headers, this`freeList, this`usedList
      ensures Intact() && headers == MoveOut(old(headers), x, t)
      ensures freeList == if old(freeList) == x then old(headers)[x].vnext else old(freeList)
      ensures usedList == old(usedList)
    {
      hide Intact, OutMap;
      var next := Load(x, PNext);
      if next != 0 {
        Store(next, PPrev, t);
      }
      var prev := Load(x, PPrev);
      Store(prev, PNext, t);
      HeappBlockUnlink(FreeList, x);
    }

    method MoveFinish(t: nat, gap: nat)
      requires Intact() && t in headers && headers[t].size >= gap
      requires Val(headers, t, PPrev) in headers && Val(headers, t, PPrev) != t
      requires Val(headers, Val(headers, t, PPrev), Size) + gap < U32
      modifies memory, this`headers
      ensures Intact() && headers == MoveSizes(old(headers), t, gap)
    {
      hide Intact;
      var prev := Load(t, PPrev);
      var len := Load(prev, Size);
      Store(prev, Size, len + gap);
      len := Load(t, Size);
      Store(t, Size, len - gap);
    }

    /** HeappAlign, "give to previous". */
    method MoveFree(x: nat, t: nat, ghost i: nat)
      requires Valid() && 0 < i && FreeAt(layout.chain, i) && layout.chain[i].off == x
      requires x < t < x + layout.chain[i].len
      modifies memory, this`headers, this`touched, this`freeList, this`usedList, this`layout
      ensures Consistent() && layout == Move(old(layout), i, t)
      ensures touched == old(touched) + {t}
    {
      hide Sound, Rep, Intact, Coalesced, Move, Offs, Apart, Separate, Without, Unlinkable, MoveOut, Rekey, MoveSizes, FrontMap;
      ghost var g, s := Move(layout, i, t), layout;
      ArenaSize();
      MoveReady(headers, layout, size, i, t);
      MoveRep(headers, layout, i, t);
      MoveSteps(headers, x, t, s.chain[i - 1].off);
      MoveStart(x, t);
      CopyHeader(x, t);
      MoveFinish(t, t - x);
      HeappBlockLink(FreeList, t);
      layout := g;
    }

    method HeappAlign(address: nat, aligned: nat, ghost i: nat)
      requires Valid() && FreeAt(layout.chain, i) && layout.chain[i].off == address
      requires address < aligned < address + layout.chain[i].len
      requires i == 0 ==> aligned >= address + HEADER + MIN_FREE
      modifies memory, this`headers, this`touched, this`freeList, this`usedList, this`layout
      ensures Consistent() && layout == Align(old(layout), i, aligned)
      ensures touched == old(touched) + {aligned}
    {
      hide Sound, Rep, Intact, Coalesced, Move, Cut, Offs;
      var gap := aligned - address;
      if gap >= HEADER + MIN_FREE {
        CreateRest(address, gap - HEADER, i);
      } else {
        MoveFree(address, aligned, i);
      }
    }

    // -------------------------------------------------------------------- coalescing

    /** x is 0, or the state of block x is st. */
    method NoneOr(x: nat, st: nat) returns (b: bool)
      requires Intact() && (x != 0 ==> x in headers)
      ensures b <==> x == 0 || Val(headers, x, State) == st
    {
      hide Intact;
      if x == 0 { return true; }
      var v := Load(x, State);
      b := v == st;
    }

    method Is(x: nat, st: nat) returns (b: bool)
      requires Intact() && (x != 0 ==> x in headers)
      ensures b <==> x != 0 && Val(headers, x, State) == st
    {
      hide Intact;
      if x == 0 { return false; }
      var v := Load(x, State);
      b := v == st;
    }

    method Zero(p: nat, n: nat)
      requires Intact() && p + n <= size
      requires forall x :: x in headers ==> p + n + HEADER <= x || x <= p
      modifies memory, this`before
      ensures Intact() && before == Zeroed(old(before), p, n)
      ensures forall y :: Blank(old(memory[..]), y) ==> Blank(memory[..], y)
    {
      ghost var m := memory[..];
      forall k | p <= k < p + n {
        memory[k] := 0;
      }
      forall x | x in headers ensures Decode(memory[..], x) == headers[x] {
        DecodeFrame(m, memory[..], x);
        assert Decode(m, x) == headers[x];
      }
      before := Zeroed(before, p, n);
    }

    method HeappBlockZero(x: nat)
      requires Intact() && Clear(x) && x !in headers
      modifies memory
      ensures Intact() && Blank(memory[..], x)
      ensures forall y :: Blank(old(memory[..]), y) ==> Blank(memory[..], y)
    {
      ghost var m := memory[..];
      forall k | x - HEADER <= k < x {
        memory[k] := 0;
      }
      forall y | y in headers ensures Decode(memory[..], y) == headers[y] {
        DecodeFrame(m, memory[..], y);
        assert Decode(m, y) == headers[y];
      }
      assert forall k: nat :: x - HEADER <= k < x ==> InHeader(touched, k);
    }

    // The four cases of HeappFree; x has left the used list already.

    method FreeAlone(x: nat)
      requires Intact() && x in headers
      requires freeList != 0 ==> freeList in headers && freeList != x
      modifies memory, this`headers, this`freeList, this`usedList
      ensures Intact() && headers == FrontMap(AloneMap(old(headers), x), old(freeList), x)
      ensures freeList == x && usedList == old(usedList)
    {
      hide Intact, FrontMap, Upd;
      Store(x, State, FREE);
      HeappBlockLink(FreeList, x);
    }

    /** Place x is apart from all headers but, perhaps, its own. */
    ghost predicate Clear(x: nat)
      reads this`headers, this`touched
    {
      && x in touched && HEADER <= x <= size
      && forall y :: y in headers && y != x ==> y + HEADER <= x || x + HEADER <= y
    }

    lemma HeaderClear(x: nat)
      requires Intact() && x in headers
      ensures Clear(x)
    {
      forall y | y in headers && y != x ensures y + HEADER <= x || x + HEADER <= y {
        assert y < x || x < y;
      }
    }

    method JoinNext(x: nat, next: nat)
      requires Intact() && x in headers && next in headers && Unlinkable(headers, next) && next == Val(headers, x, PNext)
      requires next != x && Val(headers, next, PNext) != next
      requires Val(headers, next, PNext) != 0 ==> Val(headers, next, PNext) in headers
      requires Val(headers, x, Size) + HEADER + Val(headers, next, Size) < U32
      modifies memory, this`headers, this`freeList, this`usedList
      ensures Intact() && headers == NextJoin(old(headers), x)
      ensures freeList == (if old(freeList) == next then old(headers)[next].vnext else old(freeList))
      ensures usedList == old(usedList)
    {
      hide Intact, OutMap;
      OutPhys(headers, next);
      HeappBlockUnlink(FreeList, next);
      var len := Load(x, Size);
      var more := Load(next, Size);
      Store(x, Size, len + HEADER + more);
      var far := Load(next, PNext);
      Store(x, PNext, far);
      far := Load(next, PNext);
      if far != 0 {
        InBounds(x);
        Store(far, PPrev, x);
      }
    }

    method JoinPrev(x: nat, prev: nat, next: nat)
      requires Intact() && x in headers && prev in headers && prev != x
      requires prev == Val(headers, x, PPrev) && next == Val(headers, x, PNext)
      requires next != 0 ==> next in headers
      requires Val(headers, prev, Size) + HEADER + Val(headers, x, Size) < U32
      modifies memory, this`headers
      ensures Intact() && headers == PrevJoin(old(headers), x)
    {
      hide Intact;
      var len := Load(prev, Size);
      var more := Load(x, Size);
      Store(prev, Size, len + HEADER + more);
      if next != 0 { InBounds(next); }
      Store(prev, PNext, next);
      if next != 0 {
        InBounds(prev);
        Store(next, PPrev, prev);
      }
    }

    method JoinBoth(x: nat, prev: nat, next: nat)
      requires Intact() && x in headers && prev in headers && next in headers
      requires prev != x && next != prev && next != x
      requires prev == Val(headers, x, PPrev) && next == Val(headers, x, PNext) && Unlinkable(headers, next)
      requires Val(headers, next, PNext) != 0 ==> Val(headers, next, PNext) in headers
      requires Val(headers, prev, Size) + HEADER + Val(headers, x, Size) + HEADER + Val(headers, next, Size) < U32
      modifies memory, this`headers, this`freeList, this`usedList
      ensures Intact() && headers == BothJoin(old(headers), x)
      ensures freeList == (if old(freeList) == next then old(headers)[next].vnext else old(freeList))
      ensures usedList == old(usedList)
    {
      hide Intact, OutMap;
      OutPhys(headers, next);
      HeappBlockUnlink(FreeList, next);
      var len := Load(prev, Size);
      var mid := Load(x, Size);
      var more := Load(next, Size);
      Store(prev, Size, len + HEADER + mid + HEADER + more);
      var far := Load(next, PNext);
      Store(prev, PNext, far);
      far := Load(next, PNext);
      if far != 0 {
        InBounds(prev);
        Store(far, PPrev, prev);
      }
    }

    /** The header of an absorbed block is forgotten, and zeroed when asked to. */
    method Absorb(x: nat, secure: bool)
      requires Intact() && x in headers
      modifies memory, this`headers
      ensures Intact() && headers == old(headers) - {x} && Clear(x)
      ensures secure ==> Blank(memory[..], x)
      ensures forall y :: Blank(old(memory[..]), y) ==> Blank(memory[..], y)
    {
      hide Intact, Clear, Blank;
      HeaderClear(x);
      Forget({x});
      if secure {
        HeappBlockZero(x);
      }
    }

    method FreeNext(x: nat, next: nat, secure: bool)
      requires Intact() && x in headers && next in headers && Unlinkable(headers, next) && next == Val(headers, x, PNext)
      requires next != x && Val(headers, next, PNext) != next
      requires Val(headers, next, PNext) != 0 ==> Val(headers, next, PNext) in headers
      requires Val(headers, x, Size) + HEADER + Val(headers, next, Size) < U32
      requires var head := if freeList == next then headers[next].vnext else freeList;
               head != 0 ==> head in headers && head != next && head != x
      modifies memory, this`headers, this`freeList, this`usedList
      ensures var head := if old(freeList) == next then old(headers)[next].vnext else old(freeList);
              Intact() && headers == FrontMap(NextMap(old(headers), x), head, x)
      ensures freeList == x && usedList == old(usedList)
      ensures secure ==> Blank(memory[..], next)
    {
      hide Intact, FrontMap, NextJoin, Unlinkable, Upd, Blank, Clear;
      JoinNext(x, next);
      Absorb(next, secure);
      Store(x, State, FREE);
      HeappBlockLink(FreeList, x);
    }

    method FreePrev(x: nat, prev: nat, next: nat, secure: bool)
      requires Intact() && x in headers && prev in headers && prev != x
      requires prev == Val(headers, x, PPrev) && next == Val(headers, x, PNext)
      requires next != 0 ==> next in headers
      requires Val(headers, prev, Size) + HEADER + Val(headers, x, Size) < U32
      modifies memory, this`headers
      ensures Intact() && headers == PrevMap(old(headers), x)
      ensures secure ==> Blank(memory[..], x)
    {
      hide Intact, PrevJoin, Blank, Clear;
      JoinPrev(x, prev, next);
      Absorb(x, secure);
    }

    method FreeBoth(x: nat, prev: nat, next: nat, secure: bool)
      requires Intact() && x in headers && prev in headers && next in headers
      requires prev != x && next != prev && next != x
      requires prev == Val(headers, x, PPrev) && next == Val(headers, x, PNext) && Unlinkable(headers, next)
      requires Val(headers, next, PNext) != 0 ==> Val(headers, next, PNext) in headers
      requires Val(headers, prev, Size) + HEADER + Val(headers, x, Size) + HEADER + Val(headers, next, Size) < U32
      modifies memory, this`headers, this`freeList, this`usedList
      ensures Intact() && headers == BothMap(old(headers), x)
      ensures freeList == (if old(freeList) == next then old(headers)[next].vnext else old(freeList))
      ensures usedList == old(usedList)
      ensures secure ==> Blank(memory[..], x) && Blank(memory[..], next)
    {
      hide Intact, BothJoin, Unlinkable, Blank, Clear;
      ghost var h := BothJoin(headers, x);
      JoinBoth(x, prev, next);
      Absorb(x, secure);
      Absorb(next, secure);
      assert h - {x} - {next} == h - {x, next};
    }

    /** The four tests of HeappFree, one after the other: exactly one of them succeeds. */
    method Coalesce(x: nat, prev: nat, next: nat, secure: bool, ghost i: nat)
      requires Intact() && i < |layout.chain| && layout.chain[i].off == x && Freeing(headers, layout, size, i)
      requires prev == OffAt(layout.chain, i - 1) && next == OffAt(layout.chain, i + 1)
      requires FreeAt(layout.chain, i + 1) ==> Unlinkable(headers, next)
      requires var head := if FreeAt(layout.chain, i + 1) && freeList == next then headers[next].vnext else freeList;
               !FreeAt(layout.chain, i - 1) && head != 0 ==>
                 head in headers && head != x && (FreeAt(layout.chain, i + 1) ==> head != next)
      modifies memory, this`headers, this`freeList, this`usedList
      ensures var p, n := FreeAt(layout.chain, i - 1), FreeAt(layout.chain, i + 1);
              var head := if n && old(freeList) == next then old(headers)[next].vnext else old(freeList);
              var g := CoalesceMap(old(headers), x, p, n);
              && Intact() && headers == (if p then g else FrontMap(g, head, x))
              && freeList == (if p then head else x) && usedList == old(usedList)
      ensures secure && FreeAt(layout.chain, i - 1) ==> Blank(memory[..], x)
      ensures secure && FreeAt(layout.chain, i + 1) ==> Blank(memory[..], next)
    {
      hide Intact, Blank, AloneMap, NextMap, PrevMap, BothMap, FrontMap, Unlinkable, Upd;
      ArenaSize();
      InBounds(x);
      ghost var h, head := headers, if FreeAt(layout.chain, i + 1) && freeList == next then headers[next].vnext else freeList;
      ghost var p, n := FreeAt(layout.chain, i - 1), FreeAt(layout.chain, i + 1);
      assert (p <==> prev != 0 && Val(h, prev, State) == FREE) && (n <==> next != 0 && Val(h, next, State) == FREE);
      // U U U => U F U
      var a := NoneOr(prev, USED);
      var b := NoneOr(next, USED);
      if a && b {
        FreeAlone(x);
        AloneStates(h, head, x, prev);
        AloneStates(h, head, x, next);
      }
      // U U F => U [F]
      a := NoneOr(prev, USED);
      b := Is(next, FREE);
      if a && b {
        FreeNext(x, next, secure);
        NextStates(h, head, x, prev);
      }
      // F U U => [F] U
      a := Is(prev, FREE);
      if a {
        b := NoneOr(next, USED);
        if b {
          FreePrev(x, prev, next, secure);
          PrevStates(h, x, prev);
          PrevStates(h, x, next);
        }
      }
      // F U F => [F]
      a := Is(prev, FREE);
      if a {
        b := Is(next, FREE);
        if b {
          FreeBoth(x, prev, next, secure);
        }
      }
    }

    /** What the tests at the beginning of HeappFree read. */
    lemma CheckFacts(i: nat)
      requires Valid() && i < |layout.chain|
      ensures var e := layout.chain[i];
              && e.off in headers
              && Val(headers, e.off, State) == (if e.used then USED else FREE)
              && Val(headers, e.off, PPrev) == OffAt(layout.chain, i - 1) < e.off
              && Val(headers, e.off, PNext) == OffAt(layout.chain, i + 1) < size
              && Val(headers, e.off, Size) == e.len < size && e.len > 0
    {
      hide Threaded, Intact, Coalesced, Lists, Offs, Phys, Apart, Spans;
      SoundApart(layout, size);
      HeaderOf(headers, layout.chain, i);
      TilesBounds(layout.chain, size);
    }

    /** HeappFree.  Called with a block that is not used, it does nothing. */
    method HeappFree(current: nat, secure: bool, ghost i: nat)
      requires Valid() && i < |layout.chain| && layout.chain[i].off == current
      modifies memory, this`headers, this`freeList, this`usedList, this`layout, this`before
      ensures Valid() && touched == old(touched)
      ensures !old(layout).chain[i].used ==>
                layout == old(layout) && before == old(before) && memory[..] == old(memory[..])
      ensures old(layout).chain[i].used ==> layout == Release(old(layout), i)
      ensures old(layout).chain[i].used ==>
                before == Scrubbed(old(before), current, old(layout).chain[i].len, secure)
      ensures old(layout).chain[i].used && secure ==> AbsorbedBlank(old(layout).chain, i, memory[..])
    {
      hide Sound, Rep, Intact, Coalesced, Offs, Release, CoalesceMap, OutMap, FrontMap, Apart, Spans, Without,
           Unlinkable, Freeing, Zeroed, Blank;
      CheckFacts(i);
      ArenaSize();
      var st := Load(current, State);
      var prev := Load(current, PPrev);
      var next := Load(current, PNext);
      var len := Load(current, Size);
      if st != USED || prev >= current || next >= size || len >= size || len == 0 {
        return;
      }
      ghost var s, g := layout, Release(layout, i);
      FreeReady(headers, layout, size, i);
      FreedRep(headers, layout, i);
      HeappBlockUnlink(UsedList, current);
      Coalesce(current, prev, next, secure, i);
      layout := g;
      if secure {
        PayloadClear(s, size, i);
        Zero(current, len);
      }
    }

    // -------------------------------------------------------------- public operations

    /** HeapCreate past its size check: one free block covering the whole arena. */
    constructor (size: nat)
      requires size > START && size + PAGE_SIZE < U32
      ensures Valid() && fresh(memory) && this.size == size && layout == Created(size)
    {
      memory := new byte[size];
      this.size := size;
      freeList := START;
      usedList := 0;
      layout := Created(size);
      headers := map[];
      touched := {};
      before := [];
      new;
      before := memory[..];
      WriteFirst();
      CreatedInv(size);
      CreatedRep(headers, size);
    }

    method WriteFirst()
      requires Intact() && size > START && headers == map[]
      modifies memory, this`headers, this`touched
      ensures Intact() && headers == map[START := Block(FREE, size - HEADER, 0, 0, 0, 0)]
    {
      hide Intact;
      ArenaSize();
      FirstFits();
      Adopt(START);
      Store(START, Size, size - HEADER);
      Store(START, State, FREE);
      Store(START, PNext, 0);
      Store(START, PPrev, 0);
      Store(START, VNext, 0);
      Store(START, VPrev, 0);
    }

    lemma FirstFits()
      requires size > START && headers == map[]
      ensures Separate(headers.Keys + {START}, size)
    {}

    static method HeapCreate(size: nat) returns (heap: PrivateHeap?)
      requires size < U32
      ensures size < 65536 <==> heap == null
      ensures heap != null ==>
                && fresh(heap) && fresh(heap.memory) && heap.Valid() && heap.layout == Created(size - PAGE_SIZE)
                && heap.size == size - 4096 && heap.layout == Layout([Extent(24, size - 4096 - 24, false)], [24], [])
    {
      if size < 16 * PAGE_SIZE {
        return null;
      }
      heap := new PrivateHeap(size - PAGE_SIZE);
    }

    /** Starts recording the effect of an operation. */
    ghost method Begin()
      requires Valid()
      modifies this`before, this`touched
      ensures Valid() && before == memory[..] && touched == Offs(layout.chain)
    {
      before := memory[..];
      touched := Offs(layout.chain);
    }

    method HeapAlloc(numberOfBytes: nat) returns (p: nat)
      requires Valid() && numberOfBytes < U32
      modifies this, memory
      ensures Valid()
      ensures numberOfBytes == 0 ==> p == 0 && layout == old(layout) && memory[..] == old(memory[..])
      ensures numberOfBytes > 0 ==>
                layout == Alloc(old(layout), Plain(numberOfBytes)) && p == Allocated(old(layout), Plain(numberOfBytes))
      ensures PayloadsKept(old(layout.chain), old(memory[..]), memory[..], 0)
    {
      hide Sound, Rep, Intact, Offs, Split, Coalesced, PayloadsKept, IndexOf, Alloc, Allocated, Survives;
      if numberOfBytes == 0 {
        SamePayloads(layout.chain, memory[..]);
        return 0;
      }
      Begin();
      ghost var s, req := layout, Plain(numberOfBytes);
      ghost var j := 0;
      var current := freeList;
      while current != 0
        invariant Valid() && layout == s && before == memory[..] == old(memory[..]) && touched == Offs(s.chain)
        invariant j <= |s.free| && current == At(s.free, j)
        invariant FirstFit(s, req, 0) == FirstFit(s, req, j)
        decreases |s.free| - j
      {
        ghost var i := FreeEntry(j);
        var len := Load(current, Size);
        if len >= numberOfBytes {
          AllocIs(s, req, j);
          HeappSplit(current, numberOfBytes, i);
          AllocKeeps(s, size, req);
          AllocSpares(s, size, req);
          AllSpared(s);
          return current;
        }
        current := Load(current, VNext);
        j := j + 1;
      }
      FreeEnd(j);
      AllocIs(s, req, j);
      SamePayloads(layout.chain, memory[..]);
      return 0;
    }

    /** Every live payload of layout s has its bytes still. */
    lemma AllSpared(s: Layout)
      requires Intact() && Sound(s, size) && Sound(layout, size)
      requires touched <= Offs(s.chain) + Offs(layout.chain)
      requires forall e :: e in s.chain && e.used ==> Survives(e, layout.chain)
      ensures PayloadsKept(s.chain, before, memory[..], 0)
    {
      SoundTiles(s, size);
      SoundTiles(layout, size);
      hide Sound;
      SparesPayloads(s.chain, layout.chain, size, before, memory[..], touched, 0);
    }

    lemma FreeEnd(j: nat)
      requires Valid() && j <= |layout.free| && At(layout.free, j) == 0
      ensures j == |layout.free|
    {
      if j < |layout.free| {
        TilesBounds(layout.chain, size);
        var i := FreeEntry(j);
        assert false;
      }
    }

    lemma UsedEnd(j: nat)
      requires Valid() && j <= |layout.used| && At(layout.used, j) == 0
      ensures j == |layout.used|
    {
      if j < |layout.used| {
        TilesBounds(layout.chain, size);
        var i := UsedEntry(j);
        assert false;
      }
    }

    /** What an entry of the used list is. */
    lemma UsedEntry(j: nat) returns (i: nat)
      requires Valid() && j < |layout.used|
      ensures i < |layout.chain| && layout.chain[i].used && layout.chain[i].off == layout.used[j]
      ensures layout.used[j] in headers
      ensures Val(headers, layout.used[j], Size) == layout.chain[i].len
      ensures Val(headers, layout.used[j], VNext) == At(layout.used, j + 1)
    {
      assert layout.used[j] in layout.used;
      UsedListed(layout, size, layout.used[j]);
      i := IndexOf(layout.chain, layout.used[j]);
      SizeShown(i);
      assert LinkAt(headers, layout.used, j);
    }

    /** What an entry of the free list is. */
    lemma FreeEntry(j: nat) returns (i: nat)
      requires Valid() && j < |layout.free|
      ensures i == IndexOf(layout.chain, layout.free[j]) && FreeAt(layout.chain, i)
      ensures layout.free[j] in headers && layout.chain[i].off == layout.free[j]
      ensures Val(headers, layout.free[j], Size) == layout.chain[i].len
      ensures Val(headers, layout.free[j], VNext) == At(layout.free, j + 1)
      ensures Val(headers, layout.free[j], PPrev) == 0 <==> i == 0
    {
      i := IndexOf(layout.chain, layout.free[j]);
      FreeListed(layout, size, j);
      SizeShown(i);
      CheckFacts(i);
      SoundApart(layout, size);
      assert LinkAt(headers, layout.free, j);
    }

    /** The gap in front of the aligned offset; in front of the first block it must hold a
        block of its own. */
    method WidenGap(current: nat, start: nat, align: nat, ghost i: nat) returns (aligned: nat, gap: nat)
      requires Valid() && 0 < align <= PAGE_SIZE && i < |layout.chain| && layout.chain[i].off == current
      requires start == NextMultiple(current, align)
      ensures aligned == Spot(layout.chain, i, align) && gap == aligned - current
    {
      hide Sound, Rep, Intact, Offs, Coalesced, NextMultiple, Spans, Bump, Spot, Apart;
      ArenaSize();
      CheckFacts(i);
      SoundTiles(layout, size);
      SpotNear(layout.chain, size, i, align);
      SoundApart(layout, size);
      OffAtZero(layout.chain, i);
      aligned := start;
      gap := (aligned - current) % U32;
      var prev := Load(current, PPrev);
      if prev == 0 {
        while gap < HEADER + MIN_FREE
          invariant aligned == current + gap
          invariant Bump(gap, align) == Bump(start - current, align)
          decreases HEADER + MIN_FREE - gap
        {
          BumpStep(gap, align);
          gap := (gap + align) % U32;
          aligned := (aligned + align) % U32;
        }
        BumpStep(gap, align);
      }
    }

    /** Aligns free block i and takes n bytes of it. */
    method Serve(current: nat, aligned: nat, n: nat, ghost i: nat)
      requires Valid() && FreeAt(layout.chain, i) && layout.chain[i].off == current
      requires current < aligned && n > 0 && aligned - current + n <= layout.chain[i].len
      requires i == 0 ==> aligned >= current + HEADER + MIN_FREE
      modifies memory, this`headers, this`touched, this`freeList, this`usedList, this`layout
      ensures Consistent()
      ensures AlignFrom(old(layout).chain, i, aligned) + 1 < |Align(old(layout), i, aligned).chain|
      ensures layout == Split(Align(old(layout), i, aligned), AlignFrom(old(layout).chain, i, aligned) + 1, n)
      ensures touched <= old(touched) + Offs(layout.chain)
    {
      hide Sound, Rep, Intact, Offs, Coalesced, Align, Split, AlignFrom;
      AlignKeeps(layout, size, i, aligned);
      SplitHas(Align(layout, i, aligned), AlignFrom(layout.chain, i, aligned) + 1, n);
      ghost var k := AlignFrom(layout.chain, i, aligned) + 1;
      HeappAlign(current, aligned, i);
      HeappSplit(aligned, n, k);
    }

    /** One free block of the search: is it large enough with the gap in front?  If so it is
        served. */
    method TryAligned(current: nat, numberOfBytes: nat, align: nat, ghost i: nat, ghost j: nat) returns (p: nat)
      requires Valid() && 0 < numberOfBytes < U32 && 0 < align <= PAGE_SIZE
      requires j < |layout.free| && current == layout.free[j] && i == IndexOf(layout.chain, current)
      requires FreeAt(layout.chain, i) && layout.chain[i].off == current && layout.chain[i].len >= numberOfBytes
      requires FirstFit(layout, Aligned(numberOfBytes, align), 0) == FirstFit(layout, Aligned(numberOfBytes, align), j)
      requires before == memory[..] && touched == Offs(layout.chain)
      modifies memory, this`headers, this`touched, this`freeList, this`usedList, this`layout
      ensures Valid()
      ensures var s, req := old(layout), Aligned(numberOfBytes, align);
              if p != 0 then layout == Alloc(s, req) && p == Allocated(s, req)
                             && PayloadsKept(old(layout.chain), old(memory[..]), memory[..], 0)
              else layout == s && memory[..] == old(memory[..]) && touched == old(touched)
                   && FirstFit(s, req, 0) == FirstFit(s, req, j + 1)
    {
      hide Sound, Rep, Intact, Offs, Split, Align, AlignFrom, Coalesced, PayloadsKept, Alloc, Allocated,
           Survives, Spot, NextMultiple, Spans;
      ghost var s, req := layout, Aligned(numberOfBytes, align);
      SoundTiles(s, size);
      ArenaSize();
      SpotNear(s.chain, size, i, align);
      var aligned := NextMultiple(current, align) % U32;
      if aligned == current {
        assert false;   // the next multiple is always larger, so nothing is ever served here
      }
      var gap;
      aligned, gap := WidenGap(current, aligned, align, i);
      p := 0;
      SizeShown(i);
      var len := Load(current, Size);
      if len >= (gap + numberOfBytes) % U32 {
        AllocIs(s, req, j);
        Serve(current, aligned, numberOfBytes, i);
        AllocKeeps(s, size, req);
        AllocSpares(s, size, req);
        AllSpared(s);
        p := aligned;
      }
    }

    /** The search of HeapAllocAligned. */
    method SearchAligned(numberOfBytes: nat, align: nat) returns (p: nat)
      requires Valid() && 0 < numberOfBytes < U32 && 0 < align <= PAGE_SIZE
      modifies this, memory
      ensures Valid()
      ensures var req := Aligned(numberOfBytes, align);
              layout == Alloc(old(layout), req) && p == Allocated(old(layout), req)
      ensures PayloadsKept(old(layout.chain), old(memory[..]), memory[..], 0)
    {
      hide Sound, Rep, Intact, Offs, Coalesced, PayloadsKept, IndexOf, Alloc, Allocated, Spot, Spans;
      Begin();
      ghost var s, req := layout, Aligned(numberOfBytes, align);
      ghost var j := 0;
      var current := freeList;
      while current != 0
        invariant Valid() && layout == s && before == memory[..] == old(memory[..]) && touched == Offs(s.chain)
        invariant j <= |s.free| && current == At(s.free, j)
        invariant FirstFit(s, req, 0) == FirstFit(s, req, j)
        decreases |s.free| - j
      {
        ghost var i := FreeEntry(j);
        var len := Load(current, Size);
        if len >= numberOfBytes {
          p := TryAligned(current, numberOfBytes, align, i, j);
          if p != 0 { return; }
          i := FreeEntry(j);
        }
        current := Load(current, VNext);
        j := j + 1;
      }
      FreeEnd(j);
      AllocIs(s, req, j);
      SamePayloads(layout.chain, memory[..]);
      return 0;
    }

    /** HeapAllocAligned.  The alignment is a machine word; up to PAGE_SIZE, as documented, the
        32-bit sums below do not wrap around. */
    method HeapAllocAligned(numberOfBytes: nat, alignment: bv32) returns (p: nat)
      requires Valid() && numberOfBytes < U32 && alignment as nat <= PAGE_SIZE
      modifies this, memory
      ensures Valid()
      ensures numberOfBytes == 0 || !IsPowerOfTwo(alignment) ==>
                p == 0 && layout == old(layout) && memory[..] == old(memory[..])
      ensures numberOfBytes > 0 && IsPowerOfTwo(alignment) ==>
                var req := Aligned(numberOfBytes, alignment as nat);
                req.Legal() && layout == Alloc(old(layout), req) && p == Allocated(old(layout), req)
      ensures PayloadsKept(old(layout.chain), old(memory[..]), memory[..], 0)
    {
      hide Sound, Rep, Intact, Coalesced, PayloadsKept, Alloc, Allocated;
      if numberOfBytes == 0 {
        SamePayloads(layout.chain, memory[..]);
        return 0;
      }
      if alignment == 0 || alignment & (alignment - 1) != 0 {
        SamePayloads(layout.chain, memory[..]);
        return 0;
      }
      p := SearchAligned(numberOfBytes, alignment as nat);
    }

    predicate HeappContains(offset: int) {
      HEADER <= offset < size
    }

    /** HeappFree and what it does to the bytes of the payloads. */
    method FreeBlock(offset: nat, secure: bool, ghost i: nat)
      requires Valid() && i < |layout.chain| && layout.chain[i].off == offset
      modifies this, memory
      ensures Valid()
      ensures layout == if old(layout).chain[i].used then Release(old(layout), i) else old(layout)
      ensures !old(layout).chain[i].used ==> memory[..] == old(memory[..])
      ensures PayloadsKept(old(layout.chain), old(memory[..]), memory[..], offset)
      ensures var e := old(layout).chain[i];
              e.used && secure ==> forall k :: e.off <= k < e.off + e.len && k < memory.Length ==> memory[k] == 0
      ensures old(layout).chain[i].used && secure ==> AbsorbedBlank(old(layout).chain, i, memory[..])
    {
      hide Sound, Rep, Intact, Coalesced, Release, PayloadsKept, Scrubbed, Offs, Spans, AbsorbedBlank;
      ArenaSize();
      Begin();
      ghost var s := layout;
      HeappFree(offset, secure, i);
      AfterFree(s, old(memory[..]), i, secure);
    }

    /** HeapFree of a block: a live one is released; NULL, an address outside the heap and a
        block that is not live change nothing. */
    method HeapFree(p: Pointer)
      requires Valid()
      requires p.Address? && HeappContains(p.offset) ==> IndexOf(layout.chain, p.offset) < |layout.chain|
      modifies this, memory
      ensures Valid()
      ensures forall x :: x in old(layout.used) && p == Address(x) ==>
                && layout == Step(old(layout), Free1(x)) && x !in layout.used
                && PayloadsKept(old(layout.chain), old(memory[..]), memory[..], x)
      ensures (forall x :: x in old(layout.used) ==> p != Address(x)) ==>
                layout == old(layout) && memory[..] == old(memory[..])
    {
      hide Sound, Rep, Intact, Coalesced, Release, PayloadsKept, Offs;
      ghost var s := layout;
      forall x | x in s.used && p == Address(x)
        ensures HeappContains(x) && s.chain[IndexOf(s.chain, x)].used && x !in Step(s, Free1(x)).used
      {
        LiveOffset(s, size, x);
      }
      if p.Null? || !HeappContains(p.offset) {
        return;
      }
      UsedListed(s, size, p.offset);
      FreeBlock(p.offset, false, IndexOf(s.chain, p.offset));
    }

    /** HeapFreeSecure of any address: the live block containing it is freed and its payload
        zeroed, or nothing happens. */
    method HeapFreeSecure(p: Pointer)
      requires Valid()
      modifies this, memory
      ensures Valid()
      ensures forall e, k :: e in old(layout.chain) && e.used && e.off <= k < e.off + e.len && p == Address(k) ==>
                && layout == Step(old(layout), Free1(e.off)) && e.off !in layout.used
                && (forall m :: e.off <= m < e.off + e.len && m < memory.Length ==> memory[m] == 0)
                && HeadersBlank(old(layout.chain), e, memory[..])
                && PayloadsKept(old(layout.chain), old(memory[..]), memory[..], e.off)
      ensures (forall e, k :: e in old(layout.chain) && e.used && e.off <= k < e.off + e.len ==> p != Address(k)) ==>
                layout == old(layout) && memory[..] == old(memory[..])
    {
      hide Sound, Rep, Intact, Coalesced, Release, PayloadsKept, Offs, Spans, Holder, AbsorbedBlank, HeadersBlank;
      ghost var s := layout;
      forall e, k | e in s.chain && e.used && e.off <= k < e.off + e.len && p == Address(k)
        ensures HeappContains(k) && Holder(s.chain, k) < |s.chain| && s.chain[Holder(s.chain, k)] == e
        ensures Holder(s.chain, k) == IndexOf(s.chain, e.off) && e.off !in Step(s, Free1(e.off)).used
      {
        LivePayload(s, size, e, k);
        LiveOffset(s, size, e.off);
      }
      if p.Null? || !HeappContains(p.offset) {
        return;
      }
      var current := FindHolder(p.offset);
      if current == 0 {
        return;
      }
      ghost var i := Holder(s.chain, p.offset);
      FreeBlock(current, true, i);
      AbsorbedHeaders(s, size, i, memory[..]);
    }

    /** The walk of HeapFreeSecure over the used list: the block whose payload contains offset k,
        0 when no live block does. */
    method FindHolder(k: int) returns (x: nat)
      requires Valid()
      ensures x == OffAt(layout.chain, Holder(layout.chain, k))
      ensures x == 0 <==> Holder(layout.chain, k) == |layout.chain|
    {
      hide Sound, Rep, Intact, Coalesced, Offs, Spans, Holder, IndexOf;
      SoundTiles(layout, size);
      ghost var j := 0;
      x := usedList;
      while x != 0
        invariant j <= |layout.used| && x == At(layout.used, j)
        invariant forall m :: 0 <= m < j ==> !Contains(layout.chain, layout.used[m], k)
        decreases |layout.used| - j
      {
        ghost var i := UsedEntry(j);
        var len := Load(x, Size);
        if x <= k < x + len {
          HolderIs(layout.chain, size, k, i);
          return;
        }
        EntryContains(i, k);
        x := Load(x, VNext);
        j := j + 1;
      }
      UsedEnd(j);
      NobodyHolds(k);
    }

    /** Once nothing is live, memory shows what HeapCreate wrote. */
    lemma BackToStart()
      requires Valid() && layout.used == []
      ensures size > START && layout == Created(size) && freeList == START && usedList == 0
      ensures Decode(memory[..], START) == Block(FREE, size - HEADER, 0, 0, 0, 0)
    {
      NothingLive(layout, size);
      assert ChainAt(headers, layout.chain, 0) && LinkAt(headers, layout.free, 0);
    }

    lemma EntryContains(i: nat, k: int)
      requires Valid() && i < |layout.chain|
      ensures Contains(layout.chain, layout.chain[i].off, k) <==>
              layout.chain[i].off <= k < layout.chain[i].off + layout.chain[i].len
    {
      TilesBounds(layout.chain, size);
    }

    lemma NobodyHolds(k: int)
      requires Valid() && forall m :: 0 <= m < |layout.used| ==> !Contains(layout.chain, layout.used[m], k)
      ensures Holder(layout.chain, k) == |layout.chain|
    {
      var i := Holder(layout.chain, k);
      if i < |layout.chain| {
        OnItsList(layout, size, i);
        var m :| 0 <= m < |layout.used| && layout.used[m] == layout.chain[i].off;
        EntryContains(i, k);
        assert false;
      }
    }

    /** What a free of block i of layout s does to the bytes, m being those before. */
    lemma AfterFree(s: Layout, m: seq<byte>, i: nat, secure: bool)
      requires Inv(s, size) && i < |s.chain| && Intact() && touched == Offs(s.chain) && |m| == size
      requires before == if s.chain[i].used then Scrubbed(m, s.chain[i].off, s.chain[i].len, secure) else m
      ensures PayloadsKept(s.chain, m, memory[..], s.chain[i].off)
      ensures s.chain[i].used && secure ==>
                forall k :: s.chain[i].off <= k < s.chain[i].off + s.chain[i].len && k < memory.Length ==> memory[k] == 0
    {
      if s.chain[i].used {
        FreeSparesPayloads(s, size, i, m, memory[..], secure);
      } else {
        forall e | e in s.chain && e.used ensures Survives(e, s.chain) {}
        SparesPayloads(s.chain, s.chain, size, m, memory[..], touched, s.chain[i].off);
      }
    }
  }

  /** The test HeapAllocAligned makes on the alignment. */
  predicate IsPowerOfTwo(a: bv32) {
    a != 0 && a & (a - 1) == 0
  }

  /** It accepts the 32 powers and nothing else. */
  lemma PowersOfTwo(a: bv32)
    ensures IsPowerOfTwo(a) <==>
      || a == 0x1 || a == 0x2 || a == 0x4 || a == 0x8 || a == 0x10 || a == 0x20 || a == 0x40 || a == 0x80
      || a == 0x100 || a == 0x200 || a == 0x400 || a == 0x800 || a == 0x1000 || a == 0x2000 || a == 0x4000 || a == 0x8000
      || a == 0x1_0000 || a == 0x2_0000 || a == 0x4_0000 || a == 0x8_0000
      || a == 0x10_0000 || a == 0x20_0000 || a == 0x40_0000 || a == 0x80_0000
      || a == 0x100_0000 || a == 0x200_0000 || a == 0x400_0000 || a == 0x800_0000
      || a == 0x1000_0000 || a == 0x2000_0000 || a == 0x4000_0000 || a == 0x8000_0000
  {}
}
