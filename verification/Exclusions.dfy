/** The thread-exclusion list of src/process.c, a client of the index list: each entry knows the
    index it is stored under, and a walk goes from entry to entry by it. */
module Exclusions {
  import opened IdxList

  datatype Status = STATUS_SUCCESS | STATUS_NO_MEMORY | STATUS_NOT_FOUND

  class ExclusionEntry {
    var thread: int
    var uniqueId: nat

    constructor ()
      ensures uniqueId == 0
    {
      uniqueId := 0;
    }
  }

  class ExclusionTable {
    const table: Table<ExclusionEntry>

    /** Every active entry's UniqueId is its index. */
    ghost predicate Valid()
      reads this, table, table.nodeList, table.emptyList, Entries()
    {
      && table.Valid()
      && (forall i :: i in table.active ==> table.DataAt(i).Some?)
      && (forall i :: i in table.active ==> table.DataAt(i).value.uniqueId == i)
    }

    ghost function Entries(): set<ExclusionEntry>
      reads table, table.nodeList
    {
      set i | i in table.active && table.DataAt(i).Some? :: table.DataAt(i).value
    }

    ghost predicate Excluded(thread: int)
      reads this, table, table.nodeList, Entries()
    {
      exists i :: i in table.active && table.DataAt(i).Some? && table.DataAt(i).value.thread == thread
    }

    constructor (emptyList: array<Node<ExclusionEntry>>)
      requires emptyList.Length == 1 && emptyList[0] == Node(0, 0, None)
      ensures Valid() && fresh(table) && table.active == [] && table.emptyList == emptyList
    {
      table := new Table<ExclusionEntry>(emptyList);
    }

    method PmIsThreadExcluded(thread: int) returns (threadFound: bool)
      requires Valid()
      ensures threadFound <==> Excluded(thread)
    {
      threadFound := false;
      var current := table.GetHeadNodeIdxList();
      ghost var k := 0;
      while current.Some?
        invariant 0 <= k <= |table.active|
        invariant current == if k == |table.active| then None else table.DataAt(table.active[k])
        invariant forall i :: 0 <= i < k ==> table.DataAt(table.active[i]).value.thread != thread
        decreases |table.active| - k
      {
        if current.value.thread == thread {
          threadFound := true;
          break;
        }
        current := table.GetNextNodeIdxList(current.value.uniqueId);
        k := k + 1;
      }
    }

    /** Takes every entry out once, latest first, and frees it. */
    method PmCleanupThreadExclusionList() returns (freed: seq<ExclusionEntry>)
      requires Valid()
      modifies table, table.nodeList
      ensures Valid() && table.active == []
      ensures |freed| == old(|table.active|)
      ensures forall k :: 0 <= k < |freed| ==> old(table.DataAt(table.active[k])) == Some(freed[k])
    {
      hide Shape, Entries;
      freed := [];
      ghost var was := table.active;
      while table.nodeCount > 0
        invariant Valid() && table.nodeList == old(table.nodeList)
        invariant |freed| <= |was| && table.active == was[|freed|..]
        invariant forall i :: i in table.active ==> table.DataAt(i) == old(table.DataAt(i))
        invariant forall k :: 0 <= k < |freed| ==> old(table.DataAt(table.active[k])) == Some(freed[k])
        decreases |table.active|
      {
        assert table.active[0] == was[|freed|] && was[|freed|..][1..] == was[|freed| + 1..];
        assert forall i :: i in table.active[1..] ==> i in table.active;
        assert table.nodeCount == |table.active|;
        var removed := table.RemoveHeadIdxList();
        if removed.Some? { freed := freed + [removed.value]; }
      }
    }

    /** Excludes a thread that can be found, if there is memory for its entry.  `looked` is what
        the lookup by id gives. */
    method PmExcludeThread(looked: Option<int>, entryMemory: bool, tableMemory: bool) returns (status: Status)
      requires Valid()
      modifies table, table.nodeList
      ensures Valid()
      ensures status == if !entryMemory then STATUS_NO_MEMORY
                        else if looked.None? then STATUS_NOT_FOUND
                        else if tableMemory || old(table.free) != [] then STATUS_SUCCESS
                        else STATUS_NO_MEMORY
      ensures forall t :: Excluded(t) <==> old(Excluded(t)) || (status == STATUS_SUCCESS && looked == Some(t))
    {
      hide Chain, Circle, Distinct;
      if !entryMemory { return STATUS_NO_MEMORY; }
      var exclusion := new ExclusionEntry();
      if looked.None? { return STATUS_NOT_FOUND; }
      exclusion.thread := looked.value;
      exclusion.uniqueId := table.InsertHeadIdxList(exclusion, tableMemory);
      status := if exclusion.uniqueId == 0 then STATUS_NO_MEMORY else STATUS_SUCCESS;
    }
  }
}
