/** The index list of src/idxlist.c: a growing array of nodes that holds, over the same index
    fields, a circular list of the active nodes through node 0 and a chain of free ones. */
module IdxList {

  datatype Option<T> = None | Some(value: T)

  datatype Node<T> = Node(fidx: nat, bidx: nat, data: Option<T>)

  /** PAGE_SIZE / sizeof( IDXLIST_NODE ). */
  const NODES_PER_PAGE := 256

  // ------------------------------------------------------------------- the two lists

  /** Active node i of the circle; node 0 comes first and last. */
  function At(active: seq<nat>, i: nat): nat
    requires i <= |active| + 1
  {
    if i == 0 || i == |active| + 1 then 0 else active[i - 1]
  }

  predicate Distinct(s: seq<nat>) { forall i, j :: 0 <= i < j < |s| ==> s[i] != s[j] }

  predicate Within(s: seq<nat>, n: nat) { forall i :: 0 <= i < |s| ==> 0 < s[i] < n }

  /** Following Fidx from node 0 gives the active nodes in order, following Bidx the reverse. */
  predicate Circle<T>(nodes: seq<Node<T>>, active: seq<nat>)
    requires |nodes| > 0 && Within(active, |nodes|)
  {
    forall i, j {:trigger At(active, i), At(active, j)} :: 0 <= i <= |active| && j == i + 1 ==>
      nodes[At(active, i)].fidx == At(active, j) && nodes[At(active, j)].bidx == At(active, i)
  }

  /** Following Fidx from the first free node gives the free nodes; 0 ends the chain. */
  predicate Chain<T>(nodes: seq<Node<T>>, head: nat, free: seq<nat>)
    requires Within(free, |nodes|)
    decreases |free|
  {
    if free == [] then head == 0
    else head == free[0] && Chain(nodes, nodes[free[0]].fidx, free[1..])
  }

  /** Every node but node 0 is in exactly one list, and holds data exactly if it is active. */
  ghost predicate Shape<T>(nodes: seq<Node<T>>, head: nat, active: seq<nat>, free: seq<nat>) {
    && |nodes| > 0 && nodes[0].data.None?
    && Within(active, |nodes|) && Within(free, |nodes|) && Distinct(active + free)
    && (forall i :: 0 < i < |nodes| ==> i in active || i in free)
    && (forall i :: 0 < i < |nodes| ==> (i in active <==> nodes[i].data.Some?))
    && Circle(nodes, active) && Chain(nodes, head, free)
  }

  // ------------------------------------------------------------------- the changes

  /** Node r, taken from the free chain, put in front of the circle. */
  function Inserted<T>(nodes: seq<Node<T>>, r: nat, data: T): (n: seq<Node<T>>)
    requires 0 < r < |nodes| && nodes[0].fidx < |nodes|
    ensures |n| == |nodes|
  {
    var first := nodes[0].fidx;
    var a := nodes[r := Node(first, 0, Some(data))];
    var b := a[0 := a[0].(fidx := r)];
    b[first := b[first].(bidx := r)]
  }

  /** Node r unlinked from the circle and put in front of the free chain. */
  function Removed<T>(nodes: seq<Node<T>>, r: nat, head: nat): (n: seq<Node<T>>)
    requires r < |nodes| && nodes[r].fidx < |nodes| && nodes[r].bidx < |nodes|
    ensures |n| == |nodes|
  {
    var a := nodes[nodes[r].fidx := nodes[nodes[r].fidx].(bidx := nodes[r].bidx)];
    var b := a[a[r].bidx := a[a[r].bidx].(fidx := a[r].fidx)];
    b[r := b[r].(data := None, fidx := head)]
  }

  /** What following a node by one of its links gives. */
  function Without(s: seq<nat>, k: nat): seq<nat>
    requires k < |s|
  {
    s[..k] + s[k + 1..]
  }

  lemma {:induction false} ChainFrame<T>(nodes: seq<Node<T>>, other: seq<Node<T>>, head: nat, free: seq<nat>)
    requires Within(free, |nodes|) && |other| >= |nodes| && Chain(nodes, head, free)
    requires forall i :: 0 <= i < |free| ==> other[free[i]].fidx == nodes[free[i]].fidx
    ensures Within(free, |other|) && Chain(other, head, free)
    decreases |free|
  {
    if free != [] { ChainFrame(nodes, other, nodes[free[0]].fidx, free[1..]); }
  }

  lemma InsertedCircle<T>(nodes: seq<Node<T>>, active: seq<nat>, r: nat, data: T)
    requires |nodes| > 0 && Within(active, |nodes|) && Distinct(active) && Circle(nodes, active)
    requires 0 < r < |nodes| && r !in active
    ensures nodes[0].fidx == At(active, 1)
    ensures Within([r] + active, |nodes|) && Circle(Inserted(nodes, r, data), [r] + active)
  {
    assert nodes[At(active, 0)].fidx == At(active, 1);
    var n := Inserted(nodes, r, data);
    var now := [r] + active;
    forall i, j {:trigger At(now, i), At(now, j)} | 0 <= i <= |now| && j == i + 1
      ensures n[At(now, i)].fidx == At(now, j) && n[At(now, j)].bidx == At(now, i)
    {
      if i > 1 {
        assert At(now, i) == At(active, i - 1) && At(now, j) == At(active, i);
        assert nodes[At(active, i - 1)].fidx == At(active, i);
      } else if i == 1 {
        assert At(now, j) == At(active, 1);
      }
    }
  }

  lemma RemovedCircle<T>(nodes: seq<Node<T>>, active: seq<nat>, k: nat, head: nat)
    requires |nodes| > 0 && Within(active, |nodes|) && Distinct(active) && Circle(nodes, active) && k < |active|
    ensures var r := active[k]; nodes[r].fidx == At(active, k + 2) && nodes[r].bidx == At(active, k)
    ensures Within(Without(active, k), |nodes|) && Circle(Removed(nodes, active[k], head), Without(active, k))
  {
    var r := active[k];
    assert At(active, k + 1) == r;
    assert nodes[At(active, k + 1)].fidx == At(active, k + 2) && nodes[At(active, k + 1)].bidx == At(active, k);
    var n := Removed(nodes, r, head);
    var now := Without(active, k);
    forall i, j {:trigger At(now, i), At(now, j)} | 0 <= i <= |now| && j == i + 1
      ensures n[At(now, i)].fidx == At(now, j) && n[At(now, j)].bidx == At(now, i)
    {
      var p := if i <= k then i else i + 1;
      var q := if j <= k then j else j + 1;
      assert At(now, i) == At(active, p) && At(now, j) == At(active, q);
      assert nodes[At(active, p)].fidx == At(active, p + 1);
      assert nodes[At(active, q - 1)].fidx == At(active, q) && nodes[At(active, q)].bidx == At(active, q - 1);
    }
  }

  lemma InsertedShape<T>(nodes: seq<Node<T>>, head: nat, active: seq<nat>, free: seq<nat>, data: T)
    requires Shape(nodes, head, active, free) && free != []
    ensures head == free[0] && nodes[0].fidx < |nodes|
    ensures Shape(Inserted(nodes, head, data), nodes[head].fidx, [head] + active, free[1..])
    ensures forall i :: 0 <= i < |nodes| && i != head ==> Inserted(nodes, head, data)[i].data == nodes[i].data
    ensures Inserted(nodes, head, data)[head].data == Some(data)
  {
    assert head == free[0] && Chain(nodes, nodes[head].fidx, free[1..]);
    hide Circle, Chain, Inserted, Distinct;
    SplitDistinct(active, free);
    InsertedCircle(nodes, active, head, data);
    AtActive(active, 1);
    InsertedEffect(nodes, head, data);
    var n := Inserted(nodes, head, data);
    MoveDistinct(active, free);
    SplitDistinct([head] + active, free[1..]);
    ChainFrame(nodes, n, nodes[head].fidx, free[1..]);
    forall i | 0 < i < |n| ensures i in [head] + active || i in free[1..] {
      if i in free && i != head { assert i in free[1..]; }
    }
    forall i | 0 < i < |n| ensures i in [head] + active <==> n[i].data.Some? {
      assert i in [head] + active <==> i == head || i in active;
    }
  }

  lemma SplitDistinct(a: seq<nat>, b: seq<nat>)
    requires Distinct(a + b)
    ensures Distinct(a) && Distinct(b) && forall i :: 0 <= i < |b| ==> b[i] !in a
  {
    var s := a + b;
    assert forall i :: 0 <= i < |a| ==> s[i] == a[i];
    assert forall i :: 0 <= i < |b| ==> s[|a| + i] == b[i];
  }

  lemma JoinDistinct(a: seq<nat>, b: seq<nat>)
    requires Distinct(a) && Distinct(b) && forall i :: 0 <= i < |b| ==> b[i] !in a
    ensures Distinct(a + b)
  {}

  lemma MoveDistinct(active: seq<nat>, free: seq<nat>)
    requires Distinct(active + free) && free != []
    ensures Distinct([free[0]] + active + free[1..])
  {
    SplitDistinct(active, free);
    JoinDistinct([free[0]] + active, free[1..]);
  }

  lemma BackDistinct(active: seq<nat>, free: seq<nat>, k: nat)
    requires Distinct(active + free) && k < |active|
    ensures Distinct(Without(active, k) + ([active[k]] + free))
    ensures forall i :: i in Without(active, k) <==> i in active && i != active[k]
  {
    SplitDistinct(active, free);
    var now, r := Without(active, k), active[k];
    assert forall i :: 0 <= i < |now| ==> now[i] == active[if i < k then i else i + 1];
    assert forall j :: 0 <= j < |active| && j != k ==> active[j] == now[if j < k then j else j - 1];
    forall i | 0 <= i < |[r] + free| ensures ([r] + free)[i] !in now {
      if i > 0 { assert free[i - 1] !in active; }
    }
    JoinDistinct(now, [r] + free);
  }

  /** What a removal changes besides the circle. */
  lemma RemovedEffect<T>(nodes: seq<Node<T>>, r: nat, head: nat)
    requires r < |nodes| && nodes[r].fidx < |nodes| && nodes[r].bidx < |nodes|
    ensures var n := Removed(nodes, r, head);
            && n[r].data.None? && n[r].fidx == head
            && (forall i :: 0 <= i < |nodes| && i != r ==> n[i].data == nodes[i].data)
            && (forall i :: 0 <= i < |nodes| && i != r && i != nodes[r].bidx ==> n[i].fidx == nodes[i].fidx)
  {}

  lemma InsertedEffect<T>(nodes: seq<Node<T>>, r: nat, data: T)
    requires 0 < r < |nodes| && nodes[0].fidx < |nodes| && nodes[0].fidx != r
    ensures var n := Inserted(nodes, r, data);
            && n[r].data == Some(data)
            && (forall i :: 0 <= i < |nodes| && i != r ==> n[i].data == nodes[i].data)
            && (forall i :: 0 < i < |nodes| && i != r ==> n[i].fidx == nodes[i].fidx)
  {}

  lemma RemovedShape<T>(nodes: seq<Node<T>>, head: nat, active: seq<nat>, free: seq<nat>, k: nat)
    requires Shape(nodes, head, active, free) && k < |active|
    ensures var r := active[k];
            && nodes[r].fidx < |nodes| && nodes[r].bidx < |nodes|
            && Shape(Removed(nodes, r, head), r, Without(active, k), [r] + free)
            && (forall i :: 0 <= i < |nodes| && i != r ==> Removed(nodes, r, head)[i].data == nodes[i].data)
  {
    hide Circle, Chain, Removed, Without, Distinct;
    var r := active[k];
    SplitDistinct(active, free);
    RemovedCircle(nodes, active, k, head);
    AtActive(active, k);
    AtActive(active, k + 2);
    RemovedEffect(nodes, r, head);
    var n := Removed(nodes, r, head);
    BackDistinct(active, free, k);
    ChainFrame(nodes, n, head, free);
    ChainOn(n, r, free);
    forall i | 0 < i < |n| ensures i in Without(active, k) || i in [r] + free {
      if i !in active { assert i in free; }
    }
  }

  lemma ChainOn<T>(nodes: seq<Node<T>>, r: nat, free: seq<nat>)
    requires 0 < r < |nodes| && Within(free, |nodes|) && Chain(nodes, nodes[r].fidx, free)
    ensures Within([r] + free, |nodes|) && Chain(nodes, r, [r] + free)
  {
    assert ([r] + free)[1..] == free;
  }

  lemma AtActive(active: seq<nat>, i: nat)
    requires i <= |active| + 1
    ensures At(active, i) == 0 || At(active, i) in active
  {}

  /** Removing what was inserted last brings both lists back. */
  lemma RemoveUndoesInsert<T>(nodes: seq<Node<T>>, head: nat, active: seq<nat>, free: seq<nat>, data: T)
    requires Shape(nodes, head, active, free) && free != []
    ensures nodes[0].fidx < |nodes| && 0 < head < |nodes|
    ensures var n := Inserted(nodes, head, data);
            && n[head].fidx < |nodes| && n[head].bidx < |nodes|
            && Shape(Removed(n, head, nodes[head].fidx), head, active, free)
  {
    hide Inserted, Removed;
    InsertedShape(nodes, head, active, free, data);
    assert 0 < head < |nodes|;
    hide Shape;
    var n := Inserted(nodes, head, data);
    var now := [head] + active;
    RemovedShape(n, nodes[head].fidx, now, free[1..], 0);
    assert Without(now, 0) == active && [now[0]] + free[1..] == free;
  }

  // ------------------------------------------------------------------- growth

  function Range(from: nat, to: nat): (r: seq<nat>)
    requires from <= to
    ensures |r| == to - from && forall i :: 0 <= i < |r| ==> r[i] == from + i
  {
    seq(to - from, i requires 0 <= i < to - from => from + i)
  }

  /** The nodes a longer array adds: free, each linked to the next, the last to the old chain. */
  predicate Fresh<T>(nodes: seq<Node<T>>, from: nat, head: nat) {
    forall i :: from <= i < |nodes| ==> nodes[i].data.None? && nodes[i].fidx == (if i + 1 < |nodes| then i + 1 else head)
  }

  lemma {:induction false} FreshChain<T>(nodes: seq<Node<T>>, from: nat, head: nat, free: seq<nat>)
    requires 0 < from <= |nodes| && Fresh(nodes, from, head) && Within(free, |nodes|) && Chain(nodes, head, free)
    ensures Within(Range(from, |nodes|) + free, |nodes|)
    ensures Chain(nodes, if from < |nodes| then from else head, Range(from, |nodes|) + free)
    decreases |nodes| - from
  {
    var all := Range(from, |nodes|) + free;
    if from < |nodes| {
      FreshChain(nodes, from + 1, head, free);
      assert all[1..] == Range(from + 1, |nodes|) + free;
    } else {
      assert all == free;
    }
  }

  lemma GrownShape<T>(nodes: seq<Node<T>>, head: nat, active: seq<nat>, free: seq<nat>, n: seq<Node<T>>)
    requires Shape(nodes, head, active, free) && |n| > |nodes|
    requires n[..|nodes|] == nodes && Fresh(n, |nodes|, head)
    ensures Shape(n, |nodes|, active, Range(|nodes|, |n|) + free)
  {
    var k := |nodes|;
    assert forall i :: k <= i < |n| ==> n[i].data.None?;
    hide Chain, Fresh, Distinct;
    assert forall i :: 0 <= i < k ==> n[i] == n[..k][i];
    ChainFrame(nodes, n, head, free);
    FreshChain(n, k, head, free);
    GrownDistinct(active, free, k, |n|);
    assert Circle(n, active) by { GrownCircle(nodes, active, n); }
    var all := Range(k, |n|) + free;
    forall i | 0 < i < |n| ensures i in active || i in all {
      if i >= k { assert all[i - k] == i; } else { assert i in active || i in free; }
    }
    forall i | 0 < i < |n| ensures i in active <==> n[i].data.Some? {
      if i < k { assert n[i] == nodes[i]; }
    }
  }

  lemma GrownCircle<T>(nodes: seq<Node<T>>, active: seq<nat>, n: seq<Node<T>>)
    requires |nodes| > 0 && Within(active, |nodes|) && Circle(nodes, active) && |n| >= |nodes| && n[..|nodes|] == nodes
    ensures Within(active, |n|) && Circle(n, active)
  {
    assert forall i :: 0 <= i < |nodes| ==> n[i] == n[..|nodes|][i];
  }

  lemma GrownDistinct(active: seq<nat>, free: seq<nat>, k: nat, m: nat)
    requires Within(active, k) && Within(free, k) && Distinct(active + free) && k <= m
    ensures Distinct(active + (Range(k, m) + free))
  {
    SplitDistinct(active, free);
    JoinDistinct(Range(k, m), free);
    forall i | 0 <= i < |Range(k, m) + free| ensures (Range(k, m) + free)[i] !in active {
      if i >= m - k { assert free[i - (m - k)] !in active; }
    }
    JoinDistinct(active, Range(k, m) + free);
  }

  // ------------------------------------------------------------------- the table

  /** `emptyList` is the one node every empty table shares. */
  class Table<T> {
    const emptyList: array<Node<T>>
    var size: nat
    var nodeList: array<Node<T>>
    var nodeFreeList: nat
    var nodeCount: nat

    /** Indices of the active nodes, the latest first, and of the free ones. */
    ghost var active: seq<nat>
    ghost var free: seq<nat>

    ghost predicate Valid()
      reads this, nodeList, emptyList
    {
      && emptyList.Length == 1 && emptyList[0] == Node(0, 0, None)
      && (size == 0 <==> nodeList == emptyList) && (size > 0 ==> nodeList.Length == size)
      && Shape(nodeList[..], nodeFreeList, active, free)
      && nodeCount == |active|
    }

    /** What is stored under an index. */
    ghost function DataAt(i: nat): Option<T>
      reads this, nodeList
    {
      if i < size && i < nodeList.Length then nodeList[i].data else None
    }

    /** InitializeIdxList. */
    constructor (emptyList: array<Node<T>>)
      requires emptyList.Length == 1 && emptyList[0] == Node(0, 0, None)
      ensures Valid() && active == [] && this.emptyList == emptyList
    {
      this.emptyList := emptyList;
      size := 0;
      nodeList := emptyList;
      nodeFreeList := 0;
      nodeCount := 0;
      active, free := [], [];
    }

    method DestroyIdxList()
      requires Valid()
      modifies this
      ensures Valid() && active == [] && size == 0 && nodeList == emptyList
    {
      if nodeList != emptyList { nodeList := emptyList; }
      size := 0;
      nodeFreeList := 0;
      nodeCount := 0;
      active, free := [], [];
      assert nodeList[..] == [Node(0, 0, None)];
    }

    method LookupNodeIdxList(idx: nat) returns (data: Option<T>)
      requires Valid()
      ensures data.Some? <==> idx in active
      ensures data == DataAt(idx)
    {
      data := if idx < size then nodeList[idx].data else None;
    }

    /** The data of the first active node. */
    method GetHeadNodeIdxList() returns (data: Option<T>)
      requires Valid()
      ensures data == if active == [] then None else DataAt(active[0])
      ensures data.Some? <==> active != []
    {
      hide Chain;
      assert nodeList[..][At(active, 0)].fidx == At(active, 1);
      data := if size > 0 then nodeList[nodeList[0].fidx].data else None;
    }

    /** The data of the active node after one; node 0 comes before the first and after the
        last.  A free node leads to another free one, or to node 0. */
    method GetNextNodeIdxList(idx: nat) returns (data: Option<T>)
      requires Valid()
      ensures forall k :: 0 <= k < |active| && active[k] == idx ==>
                data == if k + 1 == |active| then None else DataAt(active[k + 1])
      ensures idx == 0 ==> data == if active == [] then None else DataAt(active[0])
      ensures idx != 0 && idx !in active ==> data == None
      ensures data.Some? ==> idx == 0 || idx in active
    {
      hide Chain, Distinct;
      if idx >= size { return None; }
      if idx == 0 {
        assert nodeList[..][At(active, 0)].fidx == At(active, 1);
      } else if idx in active {
        ghost var k :| 0 <= k < |active| && active[k] == idx;
        OnlyOnce(active, free, k);
        assert At(active, k + 1) == idx && nodeList[..][At(active, k + 1)].fidx == At(active, k + 2);
        NextActive(active, free, k);
      } else {
        FreeNext(nodeList[..], nodeFreeList, free, idx);
        NotBoth(active, free);
      }
      data := nodeList[nodeList[idx].fidx].data;
    }

    /** The loop over the new nodes, from the last one down. */
    method ChainNew(newList: array<Node<T>>)
      requires newList.Length > size && newList != nodeList && newList != emptyList
      modifies this`nodeFreeList, newList
      ensures nodeFreeList == size
      ensures Fresh(newList[..], size, old(nodeFreeList))
    {
      ghost var head := nodeFreeList;
      var idx := newList.Length;
      while idx > size
        invariant size <= idx <= newList.Length
        invariant nodeFreeList == if idx < newList.Length then idx else head
        invariant forall i :: idx <= i < newList.Length ==>
                    newList[i].data.None? && newList[i].fidx == (if i + 1 < newList.Length then i + 1 else head)
      {
        idx := idx - 1;
        newList[idx] := newList[idx].(data := None);
        newList[idx] := newList[idx].(fidx := nodeFreeList);
        nodeFreeList := idx;
      }
    }

    /** Adds a page of free nodes if memory for the longer array can be had. */
    method ExtendIdxList(memory: bool) returns (ok: bool)
      requires Valid()
      modifies this
      ensures Valid() && ok == memory && active == old(active) && nodeCount == old(nodeCount)
      ensures !ok ==> size == old(size) && nodeList == old(nodeList) && free == old(free) && nodeFreeList == old(nodeFreeList)
      ensures ok ==> size == old(size) + 256 && fresh(nodeList) && free != []
      ensures ok ==> nodeList[..old(nodeList.Length)] == old(nodeList[..])
    {
      if !memory { return false; }
      hide Chain, Circle, Distinct;
      var newSize := size + NODES_PER_PAGE;
      var newList := new Node<T>[newSize];
      ghost var nodes, head := nodeList[..], nodeFreeList;
      ChainNew(newList);
      ghost var chained := newList[..];
      if nodeList != emptyList {
        forall i | 0 <= i < size { newList[i] := nodeList[i]; }
      } else {
        newList[0] := newList[0].(fidx := 0);
        newList[0] := newList[0].(bidx := 0);
        nodeFreeList := 1;
      }
      assert newList[..][..|nodes|] == nodes;
      assert forall i :: |nodes| <= i < newSize ==> newList[i] == chained[i];
      GrownShape(nodes, head, active, free, newList[..]);
      free := Range(|nodes|, newSize) + free;
      nodeList := newList;
      size := newSize;
      ok := true;
    }

    /** The first free node becomes the first active one. */
    method LinkHead(data: T) returns (idx: nat)
      requires Valid() && free != []
      modifies this, nodeList
      ensures Valid() && nodeList == old(nodeList) && size == old(size) && emptyList[..] == old(emptyList[..])
      ensures idx > 0 && idx !in old(active) && active == [idx] + old(active) && DataAt(idx) == Some(data)
      ensures forall i :: i != idx ==> DataAt(i) == old(DataAt(i))
    {
      hide Chain, Circle, Distinct;
      ghost var nodes := nodeList[..];
      HeadIsFree(nodes, nodeFreeList, active, free);
      InsertedShape(nodes, nodeFreeList, active, free, data);
      idx := nodeFreeList;
      nodeFreeList := nodeList[idx].fidx;
      nodeList[idx] := nodeList[idx].(data := Some(data));
      nodeList[idx] := nodeList[idx].(fidx := nodeList[0].fidx);
      nodeList[0] := nodeList[0].(fidx := idx);
      nodeList[idx] := nodeList[idx].(bidx := 0);
      nodeList[nodeList[idx].fidx] := nodeList[nodeList[idx].fidx].(bidx := idx);
      assert nodeList[..] == Inserted(nodes, idx, data);
      nodeCount := nodeCount + 1;
      active, free := [idx] + active, free[1..];
    }

    /** Stores data under an index of its own; 0 if the table is full and cannot grow. */
    method InsertHeadIdxList(data: T, memory: bool) returns (idx: nat)
      requires Valid()
      modifies this, nodeList
      ensures Valid() && emptyList[..] == old(emptyList[..])
      ensures idx == 0 <==> old(free) == [] && !memory
      ensures idx == 0 ==> active == old(active) && nodeList == old(nodeList) && nodeList[..] == old(nodeList[..])
      ensures idx != 0 ==> idx !in old(active) && active == [idx] + old(active) && DataAt(idx) == Some(data)
      ensures forall i :: i in old(active) ==> DataAt(i) == old(DataAt(i))
      ensures nodeList == old(nodeList) || fresh(nodeList)
    {
      hide Shape;
      HeadIsFree(nodeList[..], nodeFreeList, active, free);
      if nodeFreeList == 0 {
        ActiveData(nodeList[..], nodeFreeList, active, free);
        var ok := ExtendIdxList(memory);
        if !ok { return 0; }
        assert forall i :: 0 <= i < old(nodeList.Length) ==> nodeList[i] == nodeList[..old(nodeList.Length)][i] == old(nodeList[..])[i];
      }
      idx := LinkHead(data);
    }

    /** The active node at position k becomes the first free one. */
    method UnlinkNode(idx: nat, ghost k: nat) returns (data: Option<T>)
      requires Valid() && k < |active| && active[k] == idx
      modifies this, nodeList
      ensures Valid() && nodeList == old(nodeList) && size == old(size) && emptyList[..] == old(emptyList[..])
      ensures data == old(DataAt(idx)) && active == Without(old(active), k)
      ensures forall i :: i != idx ==> DataAt(i) == old(DataAt(i))
    {
      hide Chain, Circle, Distinct;
      ghost var nodes := nodeList[..];
      RemovedShape(nodes, nodeFreeList, active, free, k);
      nodeList[nodeList[idx].fidx] := nodeList[nodeList[idx].fidx].(bidx := nodeList[idx].bidx);
      nodeList[nodeList[idx].bidx] := nodeList[nodeList[idx].bidx].(fidx := nodeList[idx].fidx);
      data := nodeList[idx].data;
      nodeList[idx] := nodeList[idx].(data := None);
      nodeList[idx] := nodeList[idx].(fidx := nodeFreeList);
      assert nodeList[..] == Removed(nodes, idx, nodeFreeList);
      nodeFreeList := idx;
      nodeCount := nodeCount - 1;
      active, free := Without(active, k), [idx] + free;
    }

    /** Takes the data stored under an index out; nothing happens if there is none. */
    method RemoveNodeIdxList(idx: nat) returns (data: Option<T>)
      requires Valid()
      modifies this, nodeList
      ensures Valid() && nodeList == old(nodeList) && size == old(size) && emptyList[..] == old(emptyList[..])
      ensures data == old(DataAt(idx)) && (data.Some? <==> idx in old(active))
      ensures data.None? ==> active == old(active) && nodeList[..] == old(nodeList[..])
      ensures forall k :: 0 <= k < |old(active)| && old(active)[k] == idx ==> active == Without(old(active), k)
      ensures forall i :: i != idx ==> DataAt(i) == old(DataAt(i))
    {
      hide Chain, Circle, Distinct, Without;
      if idx >= size || idx == 0 { return None; }
      if nodeList[idx].data.None? { return None; }
      ghost var k :| 0 <= k < |active| && active[k] == idx;
      OnlyOnce(active, free, k);
      data := UnlinkNode(idx, k);
    }

    /** Takes the latest data out. */
    method RemoveHeadIdxList() returns (data: Option<T>)
      requires Valid()
      modifies this, nodeList
      ensures Valid() && nodeList == old(nodeList) && size == old(size) && emptyList[..] == old(emptyList[..])
      ensures if old(active) == [] then data == None && active == [] && nodeList[..] == old(nodeList[..])
              else data.Some? && data == old(DataAt(active[0])) && active == old(active)[1..]
      ensures forall i :: i in active ==> DataAt(i) == old(DataAt(i))
    {
      hide Chain, Distinct;
      assert nodeList[..][At(active, 0)].fidx == At(active, 1);
      ghost var was := active;
      assert was != [] ==> was[0] in active && Without(was, 0) == was[1..];
      OnlyFirst(active, free);
      data := RemoveNodeIdxList(nodeList[0].fidx);
    }
  }

  lemma HeadIsFree<T>(nodes: seq<Node<T>>, head: nat, active: seq<nat>, free: seq<nat>)
    requires Shape(nodes, head, active, free)
    ensures head == 0 <==> free == []
    ensures free != [] ==> head == free[0] && head !in active && 0 < head < |nodes| && nodes[0].fidx < |nodes|
  {
    assert At(active, 0) == 0 && nodes[At(active, 0)].fidx == At(active, 1);
    hide Circle;
    SplitDistinct(active, free);
    AtActive(active, 1);
  }

  lemma ActiveData<T>(nodes: seq<Node<T>>, head: nat, active: seq<nat>, free: seq<nat>)
    requires Shape(nodes, head, active, free)
    ensures forall i :: i in active ==> 0 < i < |nodes|
  {}

  lemma NextActive(active: seq<nat>, free: seq<nat>, k: nat)
    requires k < |active|
    ensures k + 1 < |active| ==> At(active, k + 2) == active[k + 1]
    ensures k + 1 == |active| ==> At(active, k + 2) == 0
  {}

  lemma {:induction false} FreeNext<T>(nodes: seq<Node<T>>, head: nat, free: seq<nat>, idx: nat)
    requires Within(free, |nodes|) && Chain(nodes, head, free) && idx in free
    ensures nodes[idx].fidx == 0 || nodes[idx].fidx in free
    decreases |free|
  {
    if idx != free[0] {
      FreeNext(nodes, nodes[free[0]].fidx, free[1..], idx);
    } else if |free| > 1 {
      assert nodes[idx].fidx == free[1..][0];
    }
  }

  lemma NotBoth(active: seq<nat>, free: seq<nat>)
    requires Distinct(active + free)
    ensures forall i :: i in free ==> i !in active
  {
    SplitDistinct(active, free);
  }

  lemma OnlyOnce(active: seq<nat>, free: seq<nat>, k: nat)
    requires Distinct(active + free) && k < |active|
    ensures forall j :: 0 <= j < |active| && active[j] == active[k] ==> j == k
  {
    SplitDistinct(active, free);
  }

  lemma OnlyFirst(active: seq<nat>, free: seq<nat>)
    requires Distinct(active + free)
    ensures active != [] ==> forall i :: i in active[1..] ==> i != active[0]
  {
    SplitDistinct(active, free);
  }
}
