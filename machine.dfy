// Machine-level vocabulary shared by every module of the model: the C integer
// types of the Cortex-M4 target, an optional value, and 64-bit masks.

module Machine {

  /** The optional result of a lookup or of an operation that may not happen. */
  datatype Option<T> = None | Some(value: T)

  type u8 = x: int | 0 <= x < 0x100
  type u16 = x: int | 0 <= x < 0x1_0000
  type u32 = x: int | 0 <= x < 0x1_0000_0000

  /** Storing an int into a uint8_t keeps its low eight bits. */
  function Trunc8(x: int): (r: u8)
    ensures 0 <= x < 0x100 ==> r == x
  { x % 0x100 }

  /** Storing an int into a uint16_t keeps its low sixteen bits. */
  function Trunc16(x: int): (r: u16)
    ensures 0 <= x < 0x1_0000 ==> r == x
  { x % 0x1_0000 }

  /** Storing an int into a uint32_t keeps its low thirty-two bits. */
  function Trunc32(x: int): (r: u32)
    ensures 0 <= x < 0x1_0000_0000 ==> r == x
  { x % 0x1_0000_0000 }

  /** Reading a uint32_t as a 32-bit two's complement int. */
  function Signed32(x: u32): (r: int)
    ensures -0x8000_0000 <= r < 0x8000_0000
    ensures r == x || r == x - 0x1_0000_0000
  { if x < 0x8000_0000 then x else x - 0x1_0000_0000 }

  /** The int32 result of a 32-bit add or multiply that overflowed: wraps modulo 2^32. */
  function Wrap32(x: int): (r: int)
    ensures -0x8000_0000 <= r < 0x8000_0000
    ensures (r - x) % 0x1_0000_0000 == 0
    ensures -0x8000_0000 <= x < 0x8000_0000 ==> r == x
  { Signed32(Trunc32(x)) }

  /**
   * A uint64_t bit mask is modelled by the set of positions of its one-bits:
   * `m | (1ULL << k)` is `m + {k}`, `m & ~(1ULL << k)` is `m - {k}`, and
   * `m & (1ULL << k)` is non-zero exactly when `k in m`.
   */
  type Mask = set<nat>

  /** Position k lies in lo .. lo+n-1. */
  predicate InRun(k: nat, lo: nat, n: nat) { lo <= k < lo + n }

  /** The positions lo .. lo+n-1, i.e. a run of n one-bits starting at bit lo. */
  function Span(lo: nat, n: nat): (r: Mask)
    ensures forall k :: k in r <==> lo <= k < lo + n
  {
    set k: nat | k < lo + n && InRun(k, lo, n)
  }

  /** Every one-bit of m lies below bit n. */
  predicate Below(m: Mask, n: nat) { forall k :: k in m ==> k < n }

  /** Bits lo .. hi-1 of m are all set. */
  predicate AllSet(m: Mask, lo: nat, hi: nat) { forall k :: lo <= k < hi ==> k in m }

  /** A mask whose every one-bit lies below bit 64, as a uint64_t requires. */
  predicate Fits64(m: Mask) { Below(m, 64) }

  /**
   * The unsigned value of bits lo .. lo+n-1 of m, i.e. `(m >> lo) & ((1 << n) - 1)`.
   */
  function Field(m: Mask, lo: nat, n: nat): (r: nat)
    decreases n
  {
    if n == 0 then 0
    else (if lo in m then 1 else 0) + 2 * Field(m, lo + 1, n - 1)
  }

  function Pow2(n: nat): (r: nat)
    ensures r >= 1
  { if n == 0 then 1 else 2 * Pow2(n - 1) }

  /** A field of n bits is below 2^n. */
  lemma {:induction false} FieldBound(m: Mask, lo: nat, n: nat)
    ensures Field(m, lo, n) < Pow2(n)
    decreases n
  {
    if n > 0 { FieldBound(m, lo + 1, n - 1); }
  }

  /** A field whose bits are all set is 2^n - 1; one whose bits are all clear is 0. */
  lemma {:induction false} FieldAllSet(m: Mask, lo: nat, n: nat)
    requires Span(lo, n) <= m
    ensures Field(m, lo, n) == Pow2(n) - 1
    decreases n
  {
    if n > 0 {
      assert lo in Span(lo, n);
      assert Span(lo + 1, n - 1) <= Span(lo, n);
      FieldAllSet(m, lo + 1, n - 1);
    }
  }

  lemma {:induction false} FieldAllClear(m: Mask, lo: nat, n: nat)
    requires Span(lo, n) !! m
    ensures Field(m, lo, n) == 0
    decreases n
  {
    if n > 0 {
      assert lo in Span(lo, n);
      assert Span(lo + 1, n - 1) <= Span(lo, n);
      FieldAllClear(m, lo + 1, n - 1);
    }
  }

  /** A field depends only on the bits it covers. */
  lemma {:induction false} FieldLocal(m: Mask, m': Mask, lo: nat, n: nat)
    requires forall k :: lo <= k < lo + n ==> (k in m <==> k in m')
    ensures Field(m, lo, n) == Field(m', lo, n)
    decreases n
  {
    if n > 0 { FieldLocal(m, m', lo + 1, n - 1); }
  }

  /** Two adjacent runs of bits make one. */
  lemma SpanJoin(lo: nat, a: nat, b: nat)
    ensures Span(lo, a) + Span(lo + a, b) == Span(lo, a + b)
  {
    var whole := Span(lo, a + b);
    assert forall k :: k in whole ==> k in Span(lo, a) + Span(lo + a, b);
  }

  /** Bit j of a field is the mask's bit lo + j. */
  lemma {:induction false} FieldBit(m: Mask, lo: nat, n: nat, j: nat)
    requires j < n
    ensures (Field(m, lo, n) / Pow2(j)) % 2 == (if lo + j in m then 1 else 0)
    decreases j
  {
    if j > 0 {
      FieldBit(m, lo + 1, n - 1, j - 1);
      var f := Field(m, lo + 1, n - 1);
      var b := if lo in m then 1 else 0;
      assert Field(m, lo, n) == b + 2 * f;
      assert (b + 2 * f) / Pow2(j) == f / Pow2(j - 1) by {
        HalveQuotient(b, f, Pow2(j - 1));
      }
    }
  }

  /** (b + 2f) / 2p == f / p for a bit b. */
  lemma HalveQuotient(b: nat, f: nat, p: nat)
    requires b < 2 && p >= 1
    ensures (b + 2 * f) / (2 * p) == f / p
  {
    var q := f / p;
    var r := f % p;
    assert b + 2 * f == q * (2 * p) + (2 * r + b) by {
      assert f == q * p + r;
      assert 2 * (q * p) == q * (2 * p);
    }
    DivUnique(b + 2 * f, 2 * p, q, 2 * r + b);
  }

  /** Division by d has a single quotient and remainder. */
  lemma DivUnique(x: nat, d: nat, q: nat, r: nat)
    requires d >= 1 && r < d && x == q * d + r
    ensures x / d == q
  {
    var q' := x / d;
    var r' := x % d;
    assert x == q' * d + r';
    if q > q' {
      MulGap(q', q - q', d);
    } else if q < q' {
      MulGap(q, q' - q, d);
    }
  }

  /** (a + e) * d is at least a * d + d for e >= 1. */
  lemma MulGap(a: nat, e: nat, d: nat)
    requires e >= 1
    ensures (a + e) * d >= a * d + d
  {
    assert (a + e) * d == a * d + e * d;
    assert e * d == d + (e - 1) * d;
  }

  /** Dividing by a then by b is dividing by a * b. */
  lemma DivDiv(x: nat, a: nat, b: nat)
    requires a >= 1 && b >= 1
    ensures x / (a * b) == (x / a) / b
  {
    var q1 := x / a;
    var r1 := x % a;
    var q2 := q1 / b;
    var r2 := q1 % b;
    var ab := a * b;
    assert x == a * q1 + r1;
    assert a * q1 == q2 * ab + a * r2 by {
      assert q1 == b * q2 + r2;
      MulSplit(a, b, q2, r2);
    }
    assert a * r2 + r1 < ab by {
      MulBelow(a, r2, b);
    }
    DivUnique(x, ab, q2, a * r2 + r1);
  }

  /** a * (b * q + r) == (a * b) * q + a * r. */
  lemma MulSplit(a: nat, b: nat, q: nat, r: nat)
    ensures a * (b * q + r) == q * (a * b) + a * r
  {
  }

  /** a * r + (a - 1) < a * b when r < b. */
  lemma MulBelow(a: nat, r: nat, b: nat)
    requires a >= 1 && r < b
    ensures a * r + a <= a * b
  {
    MulGap(r, b - r, a);
    assert r * a + a <= b * a;
  }

  /** Four more bits multiply by 16. */
  lemma Pow2Nibble(n: nat)
    ensures Pow2(n + 4) == Pow2(n) * 16
  {
    assert Pow2(n + 4) == 2 * Pow2(n + 3) == 4 * Pow2(n + 2) == 8 * Pow2(n + 1) == 16 * Pow2(n);
  }

  /** 2^32. */
  lemma Pow2Of32()
    ensures Pow2(32) == 0x1_0000_0000
  {
    assert Pow2(8) == 256;
    assert Pow2(16) == 65536 by { Pow2Add(8, 8); }
    Pow2Add(16, 16);
  }

  /** 2^(a+b) == 2^a * 2^b. */
  lemma {:induction false} Pow2Add(a: nat, b: nat)
    ensures Pow2(a + b) == Pow2(a) * Pow2(b)
    decreases a
  {
    if a > 0 {
      Pow2Add(a - 1, b);
    }
  }
}
