// Properties of the allocator of mm.c, stated over the functions of
// MemoryManager that the Heap methods are proved against.

module HeapProperties {
  import opened Machine
  import opened MemoryManager

  /** Each usage bit below 40 is found again from the address of its block. */
  lemma BlockIndexOfAddress(k: nat)
    requires k < SmallBlocks + LargeBlocks
    ensures BlockIndex(BlockAddress(k)) == Some(k)
  {
  }

  /** A request of at most 512 bytes takes the lowest clear bit k of 0..23 and nothing else. */
  lemma SmallRequestFirstFit(m: Mask, size: u32, k: nat)
    requires Trunc16(size) <= 512
    requires k < SmallBlocks && k !in m && forall j :: 0 <= j < k ==> j in m
    ensures MallocPlan(m, size) == Some(Grant(k, 1, HeapBase512 + 512 * k))
  {
  }

  /** With all of 0..23 taken, a small request takes the lowest clear bit of 24..39. */
  lemma SmallRequestSpillover(m: Mask, size: u32, k: nat)
    requires Trunc16(size) <= 512
    requires AllSet(m, 0, SmallBlocks)
    requires SmallBlocks <= k < SmallBlocks + LargeBlocks && k !in m
    requires forall j :: SmallBlocks <= j < k ==> j in m
    ensures MallocPlan(m, size) == Some(Grant(k, 1, HeapBase1024 + 1024 * (k - SmallBlocks)))
  {
  }

  /** A small request fails exactly when all forty blocks are taken. */
  lemma SmallRequestFails(m: Mask, size: u32)
    requires Trunc16(size) <= 512
    ensures MallocPlan(m, size).None? <==> AllSet(m, 0, SmallBlocks + LargeBlocks)
  {
    if MallocPlan(m, size).None? {
      forall j | 0 <= j < SmallBlocks + LargeBlocks ensures j in m {
        if j < SmallBlocks {
          assert LowestClear(m, 0, SmallBlocks).None?;
        }
      }
    }
  }

  /** A run that fits under the limit is never preceded by one that reaches it. */
  lemma {:induction false} ScanReachesRun(m: Mask, n: nat, b: nat, s: nat)
    requires b <= s < LargeBlocks && RunFree(m, s, n)
    requires forall t :: b <= t < s ==> !RunFree(m, t, n)
    ensures RunScan(m, n, b) == RunAt(s)
    decreases s - b
  {
    if b < s {
      assert !RunReachesLimit(m, b, n);
      ScanReachesRun(m, n, b + 1, s);
    }
  }

  /** With some free run from b on, the scan finds one. */
  lemma {:induction false} ScanFindsRun(m: Mask, n: nat, b: nat)
    requires b <= LargeBlocks
    requires exists t :: b <= t < LargeBlocks && RunFree(m, t, n)
    ensures RunScan(m, n, b).RunAt?
    decreases LargeBlocks - b
  {
    var t :| b <= t < LargeBlocks && RunFree(m, t, n);
    if ProbeRun(m, b, n, 0) == Blocked {
      assert t != b;
      ScanFindsRun(m, n, b + 1);
    }
  }

  /** Without any free run from b on, the scan finds none. */
  lemma {:induction false} ScanFindsNothing(m: Mask, n: nat, b: nat)
    requires b <= LargeBlocks
    requires forall t :: b <= t < LargeBlocks ==> !RunFree(m, t, n)
    ensures !RunScan(m, n, b).RunAt?
    decreases LargeBlocks - b
  {
    if b < LargeBlocks {
      ScanFindsNothing(m, n, b + 1);
    }
  }

  /**
   * A request of more than 512 bytes takes the first start s whose run of
   * BlocksNeeded blocks is free, and sets exactly those bits.
   */
  lemma LargeRequestFirstFit(m: Mask, size: u32, s: nat)
    requires Trunc16(size) > 512
    requires s < LargeBlocks && RunFree(m, s, BlocksNeeded(size))
    requires forall t :: 0 <= t < s ==> !RunFree(m, t, BlocksNeeded(size))
    ensures MallocPlan(m, size) == Some(Grant(SmallBlocks + s, BlocksNeeded(size), HeapBase1024 + 1024 * s))
  {
    ScanReachesRun(m, BlocksNeeded(size), 0, s);
    LargePlan(m, size);
  }

  /** The large path of the plan is the outer scan over the 1024-byte pool. */
  lemma LargePlan(m: Mask, size: u32)
    requires Trunc16(size) > 512
    ensures MallocPlan(m, size) ==
      match RunScan(m, BlocksNeeded(size), 0)
      case RunAt(s) => Some(Grant(SmallBlocks + s, BlocksNeeded(size), HeapBase1024 + 1024 * s))
      case _ => None
  {
  }

  /** A large request fails exactly when no run of the needed length is free. */
  lemma LargeRequestFails(m: Mask, size: u32)
    requires Trunc16(size) > 512
    ensures MallocPlan(m, size).None? <==> forall t :: 0 <= t < LargeBlocks ==> !RunFree(m, t, BlocksNeeded(size))
  {
    var n := BlocksNeeded(size);
    if forall t :: 0 <= t < LargeBlocks ==> !RunFree(m, t, n) {
      ScanFindsNothing(m, n, 0);
    } else {
      ScanFindsRun(m, n, 0);
    }
  }

  /** The usage bits freeToHeap clears for record rec. */
  function Footprint(rec: Allocation): Mask {
    match BlockIndex(rec.ptrAddress)
    case None => {}
    case Some(k) => Span(k, rec.blocksUsed)
  }

  /**
   * The allocation table agrees with the usage mask: every counted record
   * that is not NULL lies in the heap, holds at least one block and all its
   * blocks are marked used, and two such records hold no block in common.
   */
  ghost predicate Tracked(v: HeapView)
    requires WellFormed(v)
  {
    && (forall i :: 0 <= i < v.count && v.table[i].ptrAddress != 0 ==>
          BlockIndex(v.table[i].ptrAddress).Some? && v.table[i].blocksUsed > 0 && Footprint(v.table[i]) <= v.memUse)
    && (forall i, j :: 0 <= i < v.count && 0 <= j < v.count && i != j && v.table[i].ptrAddress != 0 && v.table[j].ptrAddress != 0 ==>
          Footprint(v.table[i]) !! Footprint(v.table[j]))
  }

  /**
   * Freeing the address a successful allocation returned releases exactly the
   * blocks it took, so the usage mask and the record count are as before.
   */
  lemma FreeUndoesMalloc(v: HeapView, size: u32)
    requires WellFormed(v) && Tracked(v) && v.count < MaxAllocations
    requires MallocPlan(v.memUse, size).Some? && MallocPlan(v.memUse, size).value.blocks > 0
    ensures Free(Malloc(v, size).0, Malloc(v, size).1).memUse == v.memUse
    ensures Free(Malloc(v, size).0, Malloc(v, size).1).count == v.count
  {
    var g := MallocPlan(v.memUse, size).value;
    var (v1, a) := Malloc(v, size);
    assert g.first in Span(g.first, g.blocks);
    BlockIndexOfAddress(g.first);
    forall i | 0 <= i < v.count ensures v1.table[i].ptrAddress != a {
      assert v1.table[i] == v.table[i];
      assert v.table[i].ptrAddress == a ==> g.first in Footprint(v.table[i]);
    }
    assert FirstMatch(v1.table, v1.count, a) == Some(v.count);
    assert (v.memUse + Span(g.first, g.blocks)) - Span(g.first, g.blocks) == v.memUse;
  }

  /** An allocation that takes at least one block keeps the table tracked. */
  lemma MallocKeepsTracked(v: HeapView, size: u32)
    requires WellFormed(v) && Tracked(v)
    requires MallocPlan(v.memUse, size).Some? ==> MallocPlan(v.memUse, size).value.blocks > 0
    ensures Tracked(Malloc(v, size).0)
  {
    if MallocPlan(v.memUse, size).Some? && v.count < MaxAllocations {
      var g := MallocPlan(v.memUse, size).value;
      var v1 := Malloc(v, size).0;
      BlockIndexOfAddress(g.first);
      assert Footprint(v1.table[v.count]) == Span(g.first, g.blocks);
      forall i | 0 <= i < v.count && v.table[i].ptrAddress != 0
        ensures Footprint(v1.table[i]) !! Footprint(v1.table[v.count])
      {
        assert v1.table[i] == v.table[i];
      }
    }
  }

  /** freeToHeap keeps the table tracked, whatever address it is given. */
  lemma FreeKeepsTracked(v: HeapView, a: u32)
    requires WellFormed(v) && Tracked(v)
    ensures Tracked(Free(v, a))
  {
  }

  /**
   * A request whose block count wraps to zero in its uint8_t (here 261500
   * bytes) is granted address 0x20004000 without taking any block.
   */
  lemma ZeroBlockGrant(m: Mask)
    ensures MallocPlan(m, 261500) == Some(Grant(SmallBlocks, 0, HeapBase1024))
  {
    assert BlocksNeeded(261500) == 0;
    assert RunFree(m, 0, 0);
  }

  /**
   * freeToHeap clears the freed record in place and lowers the count, so the
   * last counted record drops out of reach: after allocating two small
   * blocks and freeing the first, freeing the second does nothing.
   */
  lemma FreeLosesLastRecord()
    ensures var (v1, a1) := Malloc(EmptyHeap, 100);
      var (v2, a2) := Malloc(v1, 100);
      var v3 := Free(v2, a1);
      a1 == HeapBase512 && a2 == HeapBase512 + 512 && v3.count == 1
      && Free(v3, a2) == v3 && 1 in v3.memUse
  {
    var (v1, a1) := Malloc(EmptyHeap, 100);
    assert LowestClear({}, 0, SmallBlocks) == Some(0);
    var (v2, a2) := Malloc(v1, 100);
    assert LowestClear({0}, 0, SmallBlocks) == Some(1);
    var v3 := Free(v2, a1);
    assert FirstMatch(v2.table, v2.count, a1) == Some(0);
    assert v3.table[0] == Cleared;
    assert FirstMatch(v3.table, v3.count, a2) == None;
  }

  /**
   * KillThread frees the base address and then the Allocation field. For a
   * task that never called malloc the second address is NULL, and the free
   * of NULL finds the record the first free has just zeroed: one kill of the
   * first of two 100-byte stacks leaves no counted record, and the second
   * stack's record is out of the search with its block still marked used.
   */
  lemma KillFreesTwice()
    ensures var (v1, a1) := Malloc(EmptyHeap, 100);
      var (v2, a2) := Malloc(v1, 100);
      var v4 := Free(Free(v2, a1), 0);
      v2.count == 2 && v4.count == 0 && FirstMatch(v4.table, v4.count, a2).None? && 1 in v4.memUse
  {
    var (v1, a1) := Malloc(EmptyHeap, 100);
    assert LowestClear({}, 0, SmallBlocks) == Some(0);
    var (v2, a2) := Malloc(v1, 100);
    assert LowestClear({0}, 0, SmallBlocks) == Some(1);
    var v3 := Free(v2, a1);
    assert FirstMatch(v2.table, v2.count, a1) == Some(0);
    assert FirstMatch(v3.table, v3.count, 0) == Some(0);
    assert v3.table[0] == Cleared;
    assert BlockIndex(0).None?;
  }

  /**
   * The same kill with the corrected free: the record of the second stack is
   * moved into the hole, the free of NULL finds nothing, and the second stack
   * stays recorded and marked.
   */
  lemma KillCompactingFreesOnce()
    ensures var (v1, a1) := Malloc(EmptyHeap, 100);
      var (v2, a2) := Malloc(v1, 100);
      var v4 := FreeCompacting(FreeCompacting(v2, a1), 0);
      v4.count == 1 && FirstMatch(v4.table, v4.count, a2) == Some(0) && v4.memUse == {1}
  {
    var (v1, a1) := Malloc(EmptyHeap, 100);
    assert LowestClear({}, 0, SmallBlocks) == Some(0);
    var (v2, a2) := Malloc(v1, 100);
    assert LowestClear({0}, 0, SmallBlocks) == Some(1);
    assert FirstMatch(v2.table, v2.count, a1) == Some(0);
    var v3 := FreeCompacting(v2, a1);
    assert v3.table[0] == v2.table[1];
    assert FirstMatch(v3.table, v3.count, 0) == None;
  }

  /** Some counted record has address b. */
  ghost predicate Recorded(v: HeapView, b: u32)
    requires WellFormed(v)
  {
    exists i :: 0 <= i < v.count && v.table[i].ptrAddress == b
  }

  /** Every address other than the freed one is recorded after the corrected free exactly when it was before. */
  lemma FreeCompactingKeepsOthers(v: HeapView, a: u32, b: u32)
    requires WellFormed(v) && b != a
    ensures Recorded(FreeCompacting(v, a), b) <==> Recorded(v, b)
    ensures FirstMatch(FreeCompacting(v, a).table, FreeCompacting(v, a).count, b).Some? <==> FirstMatch(v.table, v.count, b).Some?
  {
    var r := FreeCompacting(v, a);
    var m := FirstMatch(v.table, v.count, a);
    if m.Some? {
      var i := m.value;
      var last := v.count - 1;
      if Recorded(v, b) {
        var j :| 0 <= j < v.count && v.table[j].ptrAddress == b;
        var j' := if j == last then i else j;
        assert r.table[j'].ptrAddress == b;
      }
      if Recorded(r, b) {
        var j :| 0 <= j < r.count && r.table[j].ptrAddress == b;
        var j' := if j == i then last else j;
        assert v.table[j'].ptrAddress == b;
      }
    }
  }

  /** The corrected free keeps the table tracked, whatever address it is given. */
  lemma FreeCompactingKeepsTracked(v: HeapView, a: u32)
    requires WellFormed(v) && Tracked(v)
    ensures Tracked(FreeCompacting(v, a))
  {
  }

  /**
   * With the corrected free the scenario of FreeLosesLastRecord ends with an
   * empty heap: both allocations are found again and released.
   */
  lemma FreeCompactingRestores()
    ensures var (v1, a1) := Malloc(EmptyHeap, 100);
      var (v2, a2) := Malloc(v1, 100);
      var v4 := FreeCompacting(FreeCompacting(v2, a1), a2);
      v4.memUse == {} && v4.count == 0
  {
  }
}
