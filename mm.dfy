// The two-tier block allocator of mm.c.
//
// The heap is 24 blocks of 512 bytes from HeapBase512 (usage bits 0..23)
// followed by 16 blocks of 1024 bytes from HeapBase1024 (usage bits 24..39).
// A 64-bit usage mask records which blocks are taken and a table of at most
// forty records remembers each allocation so that it can be freed.

module MemoryManager {
  import opened Machine

  const HeapBase512: nat := 0x2000_1000
  const HeapBase1024: nat := 0x2000_4000
  const HeapLimit: nat := 0x2000_8000
  const MaxAllocations: nat := 40

  /** Number of 512-byte blocks (usage bits 0 .. 23). */
  const SmallBlocks: nat := 24
  /** Number of 1024-byte blocks (usage bits 24 .. 39). */
  const LargeBlocks: nat := 16

  /** One entry of the allocation table. */
  datatype Allocation = Allocation(ptrAddress: u32, blocksUsed: u8, blocksSize: u16)

  /** The entry freeToHeap leaves behind. */
  const Cleared := Allocation(0, 0, 0)

  /** The allocator's state: usage mask, allocation table and record count. */
  datatype HeapView = HeapView(memUse: Mask, table: seq<Allocation>, count: nat)

  ghost predicate WellFormed(v: HeapView) {
    |v.table| == MaxAllocations && v.count <= MaxAllocations && Below(v.memUse, SmallBlocks + LargeBlocks)
  }

  const EmptyHeap := HeapView({}, seq(MaxAllocations, _ => Cleared), 0)

  // ---------------------------------------------------------------------
  // Size rounding
  // ---------------------------------------------------------------------

  /** SizeMatch: the block size serving a request (its argument is a uint16_t). */
  function SizeMatch(size: u16): (r: u16)
    ensures r == 512 || r == 1024
    ensures r == 512 <==> size <= 512
  {
    if size <= 512 then 512 else 1024
  }

  /**
   * RoundUp: 512 stays 512; any other byte count goes up to a multiple of
   * 1024, computed in uint32_t so that counts within 1023 of 2^32 wrap to 0.
   */
  function RoundUp(bytes: u32): (r: u32)
    ensures bytes == 512 ==> r == 512
    ensures bytes != 512 && bytes + 1023 < 0x1_0000_0000 ==> r % 1024 == 0 && bytes <= r < bytes + 1024
    ensures bytes + 1023 >= 0x1_0000_0000 ==> r == 0
  {
    if bytes == 512 then 512
    else if bytes == 1024 then 1024
    else (Trunc32(bytes + 1023) / 1024) * 1024
  }

  /**
   * The stack size createThread evidently means to add to the block it was
   * given: 512 whenever mallocFromHeap serves the request from the small
   * path, RoundUp otherwise.
   */
  function StackRoundUp(bytes: u32): (r: u32)
    ensures SizeMatch(Trunc16(bytes)) == 512 ==> r == 512
    ensures SizeMatch(Trunc16(bytes)) == 1024 ==> r == RoundUp(bytes)
  {
    if SizeMatch(Trunc16(bytes)) == 512 then 512 else RoundUp(bytes)
  }

  /**
   * The number of 1024-byte blocks a large request asks for, held in a
   * uint8_t: the 32-bit ceiling division truncated to eight bits.
   */
  function BlocksNeeded(size: u32): (r: u8)
    ensures size + 1023 < 256 * 1024 ==> r * 1024 >= size > (r - 1) * 1024
  {
    Trunc8(Trunc32(size + 1023) / 1024)
  }

  // ---------------------------------------------------------------------
  // The search for free blocks
  // ---------------------------------------------------------------------

  /** The lowest clear bit among positions lo .. hi-1 of m. */
  function LowestClear(m: Mask, lo: nat, hi: nat): (r: Option<nat>)
    ensures r.Some? ==> lo <= r.value < hi && r.value !in m && forall k :: lo <= k < r.value ==> k in m
    ensures r.None? ==> forall k :: lo <= k < hi ==> k in m
    decreases hi - lo
  {
    if lo >= hi then None
    else if lo !in m then Some(lo)
    else LowestClear(m, lo + 1, hi)
  }

  /** Outcome of probing the n large blocks that start at block b. */
  datatype Probe = Clear | Limit | Blocked

  /** The run of n large blocks from b is inside the heap and entirely free. */
  predicate RunFree(m: Mask, b: nat, n: nat) {
    b + n <= LargeBlocks && Span(SmallBlocks + b, n) !! m
  }

  /** The run from b leaves the heap, and every block of it inside the heap is free. */
  predicate RunReachesLimit(m: Mask, b: nat, n: nat) {
    b + n > LargeBlocks && b <= LargeBlocks && Span(SmallBlocks + b, LargeBlocks - b) !! m
  }

  /**
   * The inner loop of the large path from offset i on: it stops at the
   * first block that lies at or past HeapLimit or that is already in use.
   */
  function ProbeRun(m: Mask, b: nat, n: nat, i: nat): (r: Probe)
    requires i <= n && b + i <= LargeBlocks
    ensures r == Clear <==> RunFree(m, b + i, n - i)
    ensures r == Limit <==> RunReachesLimit(m, b + i, n - i)
    decreases n - i
  {
    if i == n then Clear
    else if HeapBase1024 + (b + i) * 1024 >= HeapLimit then Limit
    else if SmallBlocks + b + i in m then Blocked
    else ProbeRun(m, b, n, i + 1)
  }

  /** Outcome of the outer loop of the large path over candidate starts. */
  datatype RunSearch = RunAt(start: nat) | PastLimit | NoRun

  /** The outer loop of the large path from candidate start b on. */
  function RunScan(m: Mask, n: nat, b: nat): (r: RunSearch)
    requires b <= LargeBlocks
    ensures r.RunAt? ==> b <= r.start < LargeBlocks && RunFree(m, r.start, n)
    ensures r.RunAt? || r.PastLimit? ==>
      forall t :: b <= t < (if r.RunAt? then r.start else LargeBlocks) && !RunReachesLimit(m, t, n) ==> !RunFree(m, t, n)
    ensures r.NoRun? ==> forall t :: b <= t < LargeBlocks ==> !RunFree(m, t, n) && !RunReachesLimit(m, t, n)
    decreases LargeBlocks - b
  {
    if b == LargeBlocks then NoRun
    else match ProbeRun(m, b, n, 0)
      case Clear => RunAt(b)
      case Limit => PastLimit
      case Blocked => RunScan(m, n, b + 1)
  }

  /** What mallocFromHeap decides: the blocks it takes and the address it returns. */
  datatype Grant = Grant(first: nat, blocks: u8, address: u32)

  /** The address of usage bit k. */
  function BlockAddress(k: nat): (r: nat)
  {
    if k < SmallBlocks then HeapBase512 + 512 * k else HeapBase1024 + 1024 * (k - SmallBlocks)
  }

  /**
   * The decision of mallocFromHeap on usage mask m: the small path takes
   * the lowest free 512-byte block, or else the lowest free 1024-byte block;
   * the large path takes the first free run of blocks in the 1024-byte pool.
   */
  function MallocPlan(m: Mask, size: u32): (r: Option<Grant>)
    ensures r.Some? ==> Span(r.value.first, r.value.blocks) !! m
    ensures r.Some? ==> r.value.first + r.value.blocks <= SmallBlocks + LargeBlocks
    ensures r.Some? ==> r.value.address == BlockAddress(r.value.first)
    ensures r.Some? && r.value.first < SmallBlocks ==> r.value.blocks == 1
  {
    if SizeMatch(Trunc16(size)) == 512 then SmallGrant(m) else LargeGrant(m, BlocksNeeded(size))
  }

  /** The small path: the lowest free 512-byte block, or else the lowest free 1024-byte block. */
  function SmallGrant(m: Mask): (r: Option<Grant>)
    ensures r.Some? ==> r.value.first !in m && r.value.blocks == 1 && r.value.first < SmallBlocks + LargeBlocks
    ensures r.Some? ==> r.value.address == BlockAddress(r.value.first)
  {
    match LowestClear(m, 0, SmallBlocks)
    case Some(k) => Some(Grant(k, 1, HeapBase512 + 512 * k))
    case None =>
      match LowestClear(m, SmallBlocks, SmallBlocks + LargeBlocks)
      case Some(k) => Some(Grant(k, 1, HeapBase1024 + 1024 * (k - SmallBlocks)))
      case None => None
  }

  /** The large path: the first free run of n blocks in the 1024-byte pool. */
  function LargeGrant(m: Mask, n: u8): (r: Option<Grant>)
    ensures r.Some? ==> Span(r.value.first, r.value.blocks) !! m && r.value.blocks == n
    ensures r.Some? ==> SmallBlocks <= r.value.first && r.value.first + r.value.blocks <= SmallBlocks + LargeBlocks
    ensures r.Some? ==> r.value.address == BlockAddress(r.value.first)
  {
    match RunScan(m, n, 0)
    case RunAt(s) => Some(Grant(SmallBlocks + s, n, HeapBase1024 + 1024 * s))
    case _ => None
  }

  // ---------------------------------------------------------------------
  // The allocator as transitions of its state
  // ---------------------------------------------------------------------

  /** StoreAllocation: append a record while fewer than forty are kept. */
  function Store(v: HeapView, rec: Allocation): (r: HeapView)
    requires WellFormed(v)
    ensures WellFormed(r) && r.memUse == v.memUse
    ensures v.count < MaxAllocations ==>
      (r.count == v.count + 1 && r.table[v.count] == rec
       && forall i :: 0 <= i < MaxAllocations && i != v.count ==> r.table[i] == v.table[i])
    ensures v.count == MaxAllocations ==> r == v
  {
    if v.count < MaxAllocations then v.(table := v.table[v.count := rec], count := v.count + 1) else v
  }

  /** mallocFromHeap: the new state and the returned address (0 is NULL). */
  function Malloc(v: HeapView, size: u32): (r: (HeapView, u32))
    requires WellFormed(v)
    ensures WellFormed(r.0)
    ensures r.1 == 0 <==> MallocPlan(v.memUse, size).None?
    ensures r.1 == 0 ==> r.0 == v
    ensures r.1 != 0 ==> var g := MallocPlan(v.memUse, size).value;
      r.1 == g.address && r.0.memUse == v.memUse + Span(g.first, g.blocks)
      && r.0 == Store(v.(memUse := r.0.memUse), Allocation(g.address, g.blocks, Trunc16(size)))
  {
    match MallocPlan(v.memUse, size)
    case None => (v, 0)
    case Some(g) =>
      (Store(v.(memUse := v.memUse + Span(g.first, g.blocks)), Allocation(g.address, g.blocks, Trunc16(size))), g.address)
  }

  /** The first record among indices below c whose address is a. */
  function FirstMatch(t: seq<Allocation>, c: nat, a: u32): (r: Option<nat>)
    requires c <= |t|
    ensures r.Some? ==>
      (r.value < c && t[r.value].ptrAddress == a && forall i :: 0 <= i < r.value ==> t[i].ptrAddress != a)
    ensures r.None? ==> forall i :: 0 <= i < c ==> t[i].ptrAddress != a
  {
    FirstMatchFrom(t, c, a, 0)
  }

  function FirstMatchFrom(t: seq<Allocation>, c: nat, a: u32, i: nat): (r: Option<nat>)
    requires i <= c <= |t|
    ensures r.Some? ==>
      (i <= r.value < c && t[r.value].ptrAddress == a && forall j :: i <= j < r.value ==> t[j].ptrAddress != a)
    ensures r.None? ==> forall j :: i <= j < c ==> t[j].ptrAddress != a
    decreases c - i
  {
    if i == c then None
    else if t[i].ptrAddress == a then Some(i)
    else FirstMatchFrom(t, c, a, i + 1)
  }

  /** The usage bit of the first block at address a, when a lies in a pool. */
  function BlockIndex(a: nat): (r: Option<nat>)
    ensures r.Some? ==> r.value < SmallBlocks + LargeBlocks && BlockAddress(r.value) <= a
    ensures r.Some? && r.value < SmallBlocks ==> a - BlockAddress(r.value) < 512
    ensures r.Some? && r.value >= SmallBlocks ==> a - BlockAddress(r.value) < 1024
    ensures HeapBase512 <= a < HeapLimit <==> r.Some?
  {
    if HeapBase512 <= a < HeapBase1024 then Some((a - HeapBase512) / 512)
    else if HeapBase1024 <= a < HeapLimit then Some(SmallBlocks + (a - HeapBase1024) / 1024)
    else None
  }

  /** The bits freeToHeap clears for record rec: blocksUsed bits from its block index. */
  function Release(m: Mask, rec: Allocation): (r: Mask)
    ensures r <= m
    ensures BlockIndex(rec.ptrAddress).None? ==> r == m
    ensures BlockIndex(rec.ptrAddress).Some? ==> r == m - Span(BlockIndex(rec.ptrAddress).value, rec.blocksUsed)
  {
    match BlockIndex(rec.ptrAddress)
    case None => m
    case Some(k) => m - Span(k, rec.blocksUsed)
  }

  /** freeToHeap: release and clear the first record for address a, if any. */
  function Free(v: HeapView, a: u32): (r: HeapView)
    requires WellFormed(v)
    ensures WellFormed(r)
    ensures FirstMatch(v.table, v.count, a).None? ==> r == v
    ensures FirstMatch(v.table, v.count, a).Some? ==> var i := FirstMatch(v.table, v.count, a).value;
      r.count == v.count - 1 && r.table == v.table[i := Cleared]
      && r.memUse == Release(v.memUse, v.table[i])
  {
    match FirstMatch(v.table, v.count, a)
    case None => v
    case Some(i) => HeapView(Release(v.memUse, v.table[i]), v.table[i := Cleared], v.count - 1)
  }

  /**
   * freeToHeap as it is evidently meant to work: the last counted record is
   * moved into the hole, so that every other record stays within count.
   */
  function FreeCompacting(v: HeapView, a: u32): (r: HeapView)
    requires WellFormed(v)
    ensures WellFormed(r)
    ensures r.memUse == Free(v, a).memUse && r.count == Free(v, a).count
  {
    match FirstMatch(v.table, v.count, a)
    case None => v
    case Some(i) => HeapView(Release(v.memUse, v.table[i]), v.table[i := v.table[v.count - 1]][v.count - 1 := Cleared], v.count - 1)
  }

  // ---------------------------------------------------------------------
  // The allocator as the C code runs it, over a mutable heap
  // ---------------------------------------------------------------------

  class Heap {
    var memUse: Mask
    var allocation: array<Allocation>
    var count: nat

    ghost predicate Valid()
      reads this, allocation
    {
      WellFormed(View())
    }

    /** The abstract state of this heap. */
    function View(): HeapView
      reads this, allocation
    {
      HeapView(memUse, allocation[..], count)
    }

    constructor ()
      ensures Valid() && View() == EmptyHeap && fresh(allocation)
    {
      memUse := {};
      allocation := new Allocation[MaxAllocations](_ => Cleared);
      count := 0;
    }

    method StoreAllocation(addr: u32, blocks: u8, size: u16)
      requires Valid()
      modifies this`count, allocation
      ensures Valid()
      ensures View() == Store(old(View()), Allocation(addr, blocks, size))
    {
      if count < MaxAllocations {
        allocation[count] := Allocation(addr, blocks, size);
        count := count + 1;
      }
    }

    method MallocFromHeap(size: u32) returns (addr: u32)
      requires Valid()
      modifies this`memUse, this`count, allocation
      ensures Valid()
      ensures (View(), addr) == Malloc(old(View()), size)
    {
      ghost var v0 := View();
      var grant := FindBlocks(memUse, size);
      if grant.Some? {
        memUse := MarkUsed(memUse, grant.value.first, grant.value.blocks);
        addr := grant.value.address;
        StoreAllocation(addr, grant.value.blocks, Trunc16(size));
        assert View() == Store(v0.(memUse := v0.memUse + Span(grant.value.first, grant.value.blocks)), Allocation(addr, grant.value.blocks, Trunc16(size)));
      } else {
        addr := 0;
        assert View() == v0;
      }
    }

    method FreeToHeap(pMemory: u32)
      requires Valid()
      modifies this`memUse, this`count, allocation
      ensures Valid()
      ensures View() == Free(old(View()), pMemory)
    {
      var i := 0;
      while i < count
        invariant 0 <= i <= count
        invariant FirstMatch(allocation[..], count, pMemory) == FirstMatchFrom(allocation[..], count, pMemory, i)
      {
        if allocation[i].ptrAddress == pMemory {
          if HeapBase512 <= pMemory < HeapBase1024 {
            memUse := MarkFree(memUse, (pMemory - HeapBase512) / 512, allocation[i].blocksUsed);
          } else if HeapBase1024 <= pMemory < HeapLimit {
            memUse := MarkFree(memUse, SmallBlocks + (pMemory - HeapBase1024) / 1024, allocation[i].blocksUsed);
          }
          allocation[i] := Cleared;
          count := count - 1;
          return;
        }
        i := i + 1;
      }
    }

    /** The corrected freeToHeap: the same search, and the last record fills the hole. */
    method FreeAndCompact(pMemory: u32)
      requires Valid()
      modifies this`memUse, this`count, allocation
      ensures Valid()
      ensures View() == FreeCompacting(old(View()), pMemory)
    {
      var i := 0;
      while i < count
        invariant 0 <= i <= count
        invariant FirstMatch(allocation[..], count, pMemory) == FirstMatchFrom(allocation[..], count, pMemory, i)
      {
        if allocation[i].ptrAddress == pMemory {
          if HeapBase512 <= pMemory < HeapBase1024 {
            memUse := MarkFree(memUse, (pMemory - HeapBase512) / 512, allocation[i].blocksUsed);
          } else if HeapBase1024 <= pMemory < HeapLimit {
            memUse := MarkFree(memUse, SmallBlocks + (pMemory - HeapBase1024) / 1024, allocation[i].blocksUsed);
          }
          allocation[i] := allocation[count - 1];
          allocation[count - 1] := Cleared;
          count := count - 1;
          return;
        }
        i := i + 1;
      }
    }
  }

  /** The searches of mallocFromHeap: the blocks it takes and the address it returns. */
  method FindBlocks(m: Mask, size: u32) returns (grant: Option<Grant>)
    ensures grant == MallocPlan(m, size)
  {
    var roundedSize := SizeMatch(Trunc16(size));
    if roundedSize == 512 {
      grant := FindSmall(m);
    } else {
      grant := FindLarge(m, BlocksNeeded(size));
    }
  }

  /** The large path of mallocFromHeap: the first run of n free 1024-byte blocks. */
  method FindLarge(m: Mask, n: u8) returns (grant: Option<Grant>)
    ensures grant == LargeGrant(m, n)
  {
    var run := FindRun(m, n);
    if run.RunAt? {
      return Some(Grant(SmallBlocks + run.start, n, HeapBase1024 + run.start * 1024));
    }
    return None;
  }

  /** The small path of mallocFromHeap: first fit over the 512-byte blocks, then the 1024-byte ones. */
  method FindSmall(m: Mask) returns (grant: Option<Grant>)
    ensures grant == SmallGrant(m)
  {
    var k := FindClearBlock(m, 0, SmallBlocks);
    if k.Some? {
      return Some(Grant(k.value, 1, HeapBase512 + k.value * 512));
    }
    k := FindClearBlock(m, SmallBlocks, SmallBlocks + LargeBlocks);
    if k.Some? {
      return Some(Grant(k.value, 1, HeapBase1024 + (k.value - SmallBlocks) * 1024));
    }
    return None;
  }

  /** The loop over block indices lo .. hi-1 that stops at the first clear usage bit. */
  method FindClearBlock(m: Mask, lo: nat, hi: nat) returns (k: Option<nat>)
    ensures k == LowestClear(m, lo, hi)
  {
    var b := lo;
    while b < hi
      invariant lo <= b || hi <= lo
      invariant forall j :: lo <= j < b ==> j in m
    {
      if b !in m {
        return Some(b);
      }
      b := b + 1;
    }
    return None;
  }

  /** The nested loops of the large path: try starts 0 .. 15, probing n blocks each. */
  method FindRun(m: Mask, n: u8) returns (r: RunSearch)
    ensures r == RunScan(m, n, 0)
  {
    var b := 0;
    while b < LargeBlocks
      invariant 0 <= b <= LargeBlocks
      invariant RunScan(m, n, 0) == RunScan(m, n, b)
    {
      var found := true;
      var i := 0;
      while i < n
        invariant 0 <= i <= n && b + i <= LargeBlocks
        invariant ProbeRun(m, b, n, 0) == ProbeRun(m, b, n, i)
      {
        if HeapBase1024 + (b + i) * 1024 >= HeapLimit {
          return PastLimit;
        }
        if SmallBlocks + b + i in m {
          found := false;
          break;
        }
        i := i + 1;
      }
      if found {
        return RunAt(b);
      }
      b := b + 1;
    }
    return NoRun;
  }

  /** `m |= 1ULL << (lo + j)` for j = 0 .. n-1. */
  method MarkUsed(m: Mask, lo: nat, n: nat) returns (r: Mask)
    ensures r == m + Span(lo, n)
  {
    r := m;
    var j := 0;
    while j < n
      invariant 0 <= j <= n && r == m + Span(lo, j)
    {
      r := r + {lo + j};
      j := j + 1;
    }
  }

  /** `m &= ~(1ULL << (lo + j))` for j = 0 .. n-1. */
  method MarkFree(m: Mask, lo: nat, n: nat) returns (r: Mask)
    ensures r == m - Span(lo, n)
  {
    r := m;
    var j := 0;
    while j < n
      invariant 0 <= j <= n && r == m - Span(lo, j)
    {
      r := r - {lo + j};
      j := j + 1;
    }
  }
}
