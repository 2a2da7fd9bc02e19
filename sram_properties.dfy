// Properties of the sub-region masks of mm.c: the window that
// addSramAccessWindow opens over a granted allocation is exactly the
// allocation's blocks, and the masks it computes are stable.

module SramProperties {
  import opened Machine
  import opened MemoryManager
  import opened SramAccess
  import opened HeapProperties

  /** The region holding the start of heap block k, with k's sub-region index k % 8. */
  lemma BlockRegion(k: nat)
    requires k < SmallBlocks + LargeBlocks
    ensures RegionAt(BlockAddress(k)) == Some(Region(2 + k / 8, BlockAddress(k - k % 8), SubregionSize(k)))
    ensures BlockAddress(k) == BlockAddress(k - k % 8) + Product(k % 8, SubregionSize(k))
  {
  }

  /** The sub-region indices of the first and the last byte of a walk from sub-region j. */
  lemma QuotientsOfRun(j: nat, n: nat, left: int, d: nat)
    requires (d == 512 || d == 1024) && n >= 1
    requires Product(n - 1, d) < left <= Product(n, d)
    ensures Quotient(Product(j, d), d) == j
    ensures Quotient(Product(j, d) + left - 1, d) == j + n - 1
  {
  }

  /** The pass that starts at block k with `left` bytes to cover, between n - 1 and n blocks. */
  lemma StrideFromBlock(k: nat, n: nat, left: int, a: nat)
    requires k < SmallBlocks + LargeBlocks && n >= 1 && a == (if k % 8 + n <= 8 then n else 8 - k % 8)
    requires k < SmallBlocks ==> k + n <= SmallBlocks
    requires Product(n - 1, SubregionSize(k)) < left <= Product(n, SubregionSize(k))
    ensures StrideAt(BlockAddress(k), left) ==
      Some(Stride(Span(k, a), BlockAddress(k + a), left - Product(a, SubregionSize(k))))
  {
    assert BlockAddress(k) + Product(a, SubregionSize(k)) == BlockAddress(k + a);
    BlockRegion(k);
    var j := k % 8;
    QuotientsOfRun(j, n, left, SubregionSize(k));
    assert 8 * (k / 8) + j == k;
  }

  /**
   * A walk that starts at heap block k and covers between n - 1 and n
   * blocks of one pool opens exactly the sub-regions k .. k + n - 1, also
   * when it crosses from one region into the next.
   */
  lemma {:induction false} WindowOverBlocks(k: nat, n: nat, left: int)
    requires n >= 1 && k + n <= SmallBlocks + LargeBlocks && (k < SmallBlocks ==> k + n <= SmallBlocks)
    requires Product(n - 1, SubregionSize(k)) < left <= Product(n, SubregionSize(k))
    ensures WindowBits(BlockAddress(k), left) == Some(Span(k, n))
    decreases n
  {
    var a := if k % 8 + n <= 8 then n else 8 - k % 8;
    StrideFromBlock(k, n, left, a);
    if a == n {
      WindowLastPass(BlockAddress(k), left, Stride(Span(k, a), BlockAddress(k + a), left - Product(a, SubregionSize(k))));
    } else {
      assert SubregionSize(k + a) == SubregionSize(k);
      var s := Stride(Span(k, a), BlockAddress(k + a), left - Product(a, SubregionSize(k)));
      WindowOverBlocks(k + a, n - a, s.left);
      WindowJoin(BlockAddress(k), left, s, Span(k + a, n - a));
      SpanJoin(k, a, n - a);
    }
  }

  /** A walk whose first pass covers every byte left clears that pass's bits. */
  lemma WindowLastPass(cur: nat, left: int, s: Stride)
    requires left > 0 && StrideAt(cur, left) == Some(s) && s.left <= 0
    ensures WindowBits(cur, left) == Some(s.bits)
  {
    assert s.bits + {} == s.bits;
  }

  /** A walk whose first pass clears s.bits and whose remaining passes clear rest clears both. */
  lemma WindowJoin(cur: nat, left: int, s: Stride, rest: Mask)
    requires left > 0 && StrideAt(cur, left) == Some(s)
    requires WindowBits(s.next, s.left) == Some(rest)
    ensures WindowBits(cur, left) == Some(s.bits + rest)
  {
  }

  /**
   * The worked example in addSramAccessWindow: 0x400 bytes from 0x20001400
   * open sub-regions 2 and 3 of region 2.
   */
  lemma WindowExample()
    ensures WindowBits(0x2000_1400, 0x400) == Some({2, 3})
  {
    WindowOverBlocks(2, 2, 0x400);
    assert Span(2, 2) == {2, 3};
  }

  /**
   * The window a task gets over an allocation of fewer than 65536 bytes is
   * exactly the blocks mallocFromHeap granted it.
   */
  lemma GrantWindow(m: Mask, size: u32)
    requires 0 < size < 0x1_0000 && MallocPlan(m, size).Some?
    ensures WindowBits(MallocPlan(m, size).value.address, size) ==
      Some(Span(MallocPlan(m, size).value.first, MallocPlan(m, size).value.blocks))
  {
    var g := MallocPlan(m, size).value;
    if Trunc16(size) <= 512 {
      WindowOverBlocks(g.first, 1, size);
    } else {
      LargePlan(m, size);
      WindowOverBlocks(g.first, g.blocks, size);
    }
  }

  /** Opening the window of a granted allocation clears exactly its blocks' bits in srd. */
  lemma GrantAccess(srd: Mask, m: Mask, size: u32)
    requires 0 < size < 0x1_0000 && MallocPlan(m, size).Some?
    ensures AddWindow(srd, MallocPlan(m, size).value.address, size) ==
      Some(srd - Span(MallocPlan(m, size).value.first, MallocPlan(m, size).value.blocks))
  {
    GrantWindow(m, size);
  }

  /** Opening the same window twice is the same as opening it once. */
  lemma AddWindowIdempotent(srd: Mask, baseAdd: u32, size: u32)
    requires AddWindow(srd, baseAdd, size).Some?
    ensures AddWindow(AddWindow(srd, baseAdd, size).value, baseAdd, size) == AddWindow(srd, baseAdd, size)
  {
    var w := WindowBits(baseAdd, Signed32(size)).value;
    assert (srd - w) - w == srd - w;
  }

  /**
   * A failed mallocFromHeap returns NULL, and a window over address 0 of a
   * positive size never returns: address 0 is in no region, so the first
   * division by the zero sub-region size traps into the usage fault.
   */
  lemma NullWindowHangs(srd: Mask, size: u32)
    requires 0 < Signed32(size)
    ensures AddWindow(srd, 0, size).None?
  {
  }

  /** Under the no-access mask every region's sub-region disable byte is 0xFF. */
  lemma NoAccessBytes(i: nat)
    requires i < 5
    ensures RegionByte(CreateNoSramAccessMask(), i) == 0xFF
  {
    FieldAllSet(CreateNoSramAccessMask(), 8 * i, 8);
  }

  /** A blocked sub-region has its bit set in its region's byte, an open one has it clear. */
  lemma RegionByteBit(srd: Mask, i: nat, j: nat)
    requires i < 5 && j < 8
    ensures (RegionByte(srd, i) / Pow2(j)) % 2 == (if 8 * i + j in srd then 1 else 0)
  {
    FieldBit(srd, 8 * i, 8, j);
  }
}
