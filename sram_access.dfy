// The sub-region access masks of mm.c.
//
// The MPU covers the heap with five SRAM regions, each split into eight
// sub-regions: regions 2, 3 and 4 have 512-byte sub-regions from 0x20001000,
// regions 5 and 6 have 1024-byte sub-regions from 0x20004000. A task's
// 40-bit SRD ("sub-region disable") mask holds one bit per sub-region,
// (region - 2) * 8 + index; a set bit denies the task that sub-region.
// Sub-region bit k covers exactly the heap block with usage bit k.

module SramAccess {
  import opened Machine
  import opened MemoryManager

  /** An SRAM region of the MPU: its number, base address and sub-region size. */
  datatype Region = Region(number: nat, base: nat, subSize: nat)

  /** The region whose range holds addr, as addSramAccessWindow classifies it. */
  function RegionAt(addr: nat): (r: Option<Region>)
    ensures r.Some? <==> HeapBase512 <= addr < HeapLimit
    ensures r.Some? ==>
      (2 <= r.value.number <= 6
       && r.value.subSize == (if r.value.number <= 4 then 512 else 1024)
       && r.value.base == BlockAddress(8 * (r.value.number - 2))
       && r.value.base <= addr < r.value.base + 8 * r.value.subSize)
  {
    if 0x2000_1000 <= addr < 0x2000_2000 then Some(Region(2, 0x2000_1000, 512))
    else if 0x2000_2000 <= addr < 0x2000_3000 then Some(Region(3, 0x2000_2000, 512))
    else if 0x2000_3000 <= addr < 0x2000_4000 then Some(Region(4, 0x2000_3000, 512))
    else if 0x2000_4000 <= addr < 0x2000_6000 then Some(Region(5, 0x2000_4000, 1024))
    else if 0x2000_6000 <= addr < 0x2000_8000 then Some(Region(6, 0x2000_6000, 1024))
    else None
  }

  /** The size of sub-region k, which is the size of heap block k. */
  function SubregionSize(k: nat): (r: nat)
    ensures r == 512 || r == 1024
  {
    if k < SmallBlocks then 512 else 1024
  }

  /** createNoSramAccessMask: every one of the forty sub-regions denied. */
  function CreateNoSramAccessMask(): (r: Mask)
    ensures Fits64(r)
    ensures forall k: nat :: k in r <==> k < SmallBlocks + LargeBlocks
  {
    Span(0, SmallBlocks + LargeBlocks)
  }

  /** x / d for the two sub-region sizes, written so that the divisor is a literal. */
  function Quotient(x: nat, d: nat): (q: nat)
    requires d == 512 || d == 1024
  {
    if d == 512 then x / 512 else x / 1024
  }

  /** n * d for the two sub-region sizes, written so that the factor is a literal. */
  function Product(n: nat, d: nat): (p: nat)
    requires d == 512 || d == 1024
  {
    if d == 512 then n * 512 else n * 1024
  }

  /** One pass of the loop of addSramAccessWindow inside region g. */
  datatype Pass = Pass(startSR: nat, endSR: nat, sizeDone: nat)

  /**
   * The sub-regions of g from the one holding cur up to the one holding
   * cur + left - 1, but no further than the last, and the bytes they span.
   */
  function PassIn(g: Region, cur: nat, left: int): (p: Pass)
    requires (g.subSize == 512 || g.subSize == 1024) && g.base <= cur < g.base + 8 * g.subSize && left > 0
    ensures p.startSR <= p.endSR <= 7
    ensures p.sizeDone >= 512
  {
    var startSR := Quotient(cur - g.base, g.subSize);
    var endSR := Quotient(cur + left - g.base - 1, g.subSize);
    var endSR' := if endSR > 7 then 7 else endSR;
    Pass(startSR, endSR', Product(endSR' - startSR + 1, g.subSize))
  }

  /** What one pass of the loop does: the bits it clears, and where the walk goes on. */
  datatype Stride = Stride(bits: Mask, next: nat, left: int)

  /**
   * One pass of addSramAccessWindow's loop from address cur with `left`
   * bytes to go, or None outside the five regions.
   */
  function StrideAt(cur: nat, left: int): (r: Option<Stride>)
    requires left > 0
    ensures r.Some? <==> RegionAt(cur).Some?
    ensures r.Some? ==> r.value.left < left && Below(r.value.bits, SmallBlocks + LargeBlocks)
  {
    match RegionAt(cur)
    case None => None
    case Some(g) =>
      var p := PassIn(g, cur, left);
      Some(Stride(Span(8 * (g.number - 2) + p.startSR, p.endSR - p.startSR + 1), cur + p.sizeDone, left - p.sizeDone))
  }

  /**
   * The sub-region bits addSramAccessWindow clears for `left` bytes from
   * address cur, region by region; None when the walk reaches an address
   * outside the five regions. There SRSize stays 0, so the division that
   * computes StartSR traps (initHw enables the divide-by-zero usage fault),
   * and usageFaultIsr never returns.
   */
  function WindowBits(cur: nat, left: int): (r: Option<Mask>)
    ensures r.Some? ==> Below(r.value, SmallBlocks + LargeBlocks)
    decreases left
  {
    if left <= 0 then Some({})
    else match StrideAt(cur, left)
      case None => None
      case Some(s) =>
        match WindowBits(s.next, s.left)
        case None => None
        case Some(rest) => Some(s.bits + rest)
  }

  /** Clearing the bits of a window from mask m, unless the walk faults. */
  function Without(m: Mask, w: Option<Mask>): (r: Option<Mask>)
    ensures r.None? <==> w.None?
  {
    match w
    case None => None
    case Some(bits) => Some(m - bits)
  }

  /** One pass of the walk clears that pass's sub-regions and leaves the rest to the next passes. */
  lemma WindowPass(mask: Mask, cur: nat, left: int)
    requires left > 0 && StrideAt(cur, left).Some?
    ensures Without(mask, WindowBits(cur, left)) ==
      Without(mask - StrideAt(cur, left).value.bits, WindowBits(StrideAt(cur, left).value.next, StrideAt(cur, left).value.left))
  {
    var s := StrideAt(cur, left).value;
    var rest := WindowBits(s.next, s.left);
    if rest.Some? {
      assert mask - (s.bits + rest.value) == (mask - s.bits) - rest.value;
    }
  }

  /**
   * addSramAccessWindow on mask srd for size_in_bytes bytes from baseAdd
   * (held in an int): the new mask, or None when the call never returns.
   */
  function AddWindow(srd: Mask, baseAdd: u32, size: u32): (r: Option<Mask>)
    ensures r.Some? ==> r.value <= srd
    ensures r.Some? ==> Below(srd - r.value, SmallBlocks + LargeBlocks)
    ensures Signed32(size) <= 0 ==> r == Some(srd)
  {
    assert srd - {} == srd;
    Without(srd, WindowBits(baseAdd, Signed32(size)))
  }

  /** The C loop of addSramAccessWindow, one region per pass. */
  method AddSramAccessWindow(srd: Mask, baseAdd: u32, size: u32) returns (r: Option<Mask>)
    ensures r == AddWindow(srd, baseAdd, size)
  {
    var sizeLeft := Signed32(size);
    var currentAddress: nat := baseAdd;
    var mask := srd;
    while sizeLeft > 0
      invariant AddWindow(srd, baseAdd, size) == Without(mask, WindowBits(currentAddress, sizeLeft))
      decreases sizeLeft
    {
      ghost var (mask0, cur0, left0) := (mask, currentAddress, sizeLeft);
      var faults;
      faults, mask, currentAddress, sizeLeft := WindowPassStep(mask, currentAddress, sizeLeft);
      if faults {
        return None;
      }
      WindowPass(mask0, cur0, left0);
    }
    assert WindowBits(currentAddress, sizeLeft) == Some({});
    assert mask - {} == mask;
    return Some(mask);
  }

  /**
   * One pass of the loop of addSramAccessWindow: find the region of the
   * current address, clear its sub-regions StartSR .. EndSR, and advance;
   * `faults` when the address is outside the five regions, where the
   * division by the zero SRSize traps into the usage fault handler.
   */
  method WindowPassStep(mask: Mask, currentAddress: nat, sizeLeft: int)
    returns (faults: bool, mask': Mask, nextAddress: nat, sizeLeft': int)
    requires sizeLeft > 0
    ensures faults <==> StrideAt(currentAddress, sizeLeft).None?
    ensures !faults ==>
      (mask' == mask - StrideAt(currentAddress, sizeLeft).value.bits
       && nextAddress == StrideAt(currentAddress, sizeLeft).value.next
       && sizeLeft' == StrideAt(currentAddress, sizeLeft).value.left)
  {
    var region := RegionAt(currentAddress);
    if region.None? {
      return true, mask, currentAddress, sizeLeft;
    }
    var g := region.value;
    var startSR := Quotient(currentAddress - g.base, g.subSize);
    var endSR := Quotient(currentAddress + sizeLeft - g.base - 1, g.subSize);
    if endSR > 7 {
      endSR := 7;
    }
    var regionOffset := (g.number - 2) * 8;
    mask' := MarkFree(mask, regionOffset + startSR, endSR - startSR + 1);
    var sizeDone := Product(endSR - startSR + 1, g.subSize);
    faults, sizeLeft', nextAddress := false, sizeLeft - sizeDone, currentAddress + sizeDone;
  }

  /** `(regionMask << 8) | (attr & 0xFFFF00FF)`: bits 8..15 of the attribute word replaced by b. */
  function SetSrdField(attr: u32, b: nat): (r: u32)
    requires b < 256
    ensures r % 256 == attr % 256
    ensures r / 65536 == attr / 65536
    ensures (r / 256) % 256 == b
  {
    var hi := attr / 65536;
    var r := hi * 65536 + b * 256 + attr % 256;
    DivUnique(r, 256, hi * 256 + b, attr % 256);
    DivUnique(hi * 256 + b, 256, hi, b);
    DivUnique(r, 65536, hi, b * 256 + attr % 256);
    r
  }

  /** The byte of region 2 + i in mask srd: `(srd >> (8 * i)) & 0xFF`. */
  function RegionByte(srd: Mask, i: nat): (r: nat)
    ensures r < 256
  {
    FieldBound(srd, 8 * i, 8);
    Field(srd, 8 * i, 8)
  }

  /**
   * The five attribute words r are attr with bits 8..15 of each (the
   * sub-region disable field) holding its region's byte of srd.
   */
  predicate MaskApplied(r: seq<u32>, srd: Mask, attr: seq<u32>)
    requires |attr| == 5
  {
    |r| == 5 &&
    forall i :: 0 <= i < 5 ==>
      (r[i] / 256) % 256 == RegionByte(srd, i) && r[i] % 256 == attr[i] % 256 && r[i] / 65536 == attr[i] / 65536
  }

  /**
   * applySramAccessMask over the attribute words of regions 2 .. 6 (index 0
   * is region 2): each gets its region's byte of srd in bits 8..15.
   */
  method ApplySramAccessMask(srd: Mask, attr: seq<u32>) returns (r: seq<u32>)
    requires |attr| == 5
    ensures MaskApplied(r, srd, attr)
  {
    r := attr;
    var i := 2;
    while i < 7
      invariant 2 <= i <= 7 && |r| == 5
      invariant forall j :: 0 <= j < i - 2 ==> r[j] == SetSrdField(attr[j], RegionByte(srd, j))
      invariant forall j :: i - 2 <= j < 5 ==> r[j] == attr[j]
    {
      var regionMask := RegionByte(srd, i - 2);
      r := r[i - 2 := SetSrdField(r[i - 2], regionMask)];
      i := i + 1;
    }
  }
}
