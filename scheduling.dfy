// rtosScheduler of src/kernel.c, as functions of the kernel state.
//
// Both modes of the scheduler end in a cyclic scan: starting at some slot,
// walk the table (wrapping around) and take the first eligible slot. The
// first half of this module is that scan over a sequence of eligibility
// flags, and the theorem that repeating it from the last pick visits every
// eligible slot once before coming back. The second half instantiates the
// scan with the two modes of the scheduler.

module Scheduling {
  import opened Machine
  import opened KernelState

  // ---------------------------------------------------------------------
  // The cyclic scan
  // ---------------------------------------------------------------------

  /** Some slot is eligible. */
  predicate AnyEligible(ok: seq<bool>) {
    exists i :: 0 <= i < |ok| && ok[i]
  }

  /** The slot k places after s in a table of n slots, wrapping round: `(s + k) % n`. */
  function At(s: nat, k: nat, n: nat): (r: nat)
    requires s < n && k < n
    ensures r < n
  {
    if s + k < n then s + k else s + k - n
  }

  /** The scan from s, offsets j .. |ok|-1: the first offset k whose slot is eligible, or |ok|. */
  function ScanFrom(ok: seq<bool>, s: nat, j: nat): (r: nat)
    requires s < |ok| && j <= |ok|
    ensures j <= r <= |ok|
    ensures r < |ok| ==> ok[At(s, r, |ok|)]
    ensures forall k :: j <= k < r ==> !ok[At(s, k, |ok|)]
    decreases |ok| - j
  {
    if j == |ok| then |ok|
    else if ok[At(s, j, |ok|)] then j
    else ScanFrom(ok, s, j + 1)
  }

  /** An offset whose slot is eligible and every smaller offset's is not is where the scan stops. */
  lemma FirstHit(ok: seq<bool>, s: nat, d: nat)
    requires s < |ok| && d < |ok| && ok[At(s, d, |ok|)]
    requires forall k :: 0 <= k < d ==> !ok[At(s, k, |ok|)]
    ensures ScanFrom(ok, s, 0) == d
  {
  }

  /** The offset that reaches slot i from s. */
  function OffsetTo(s: nat, i: nat, n: nat): (d: nat)
    requires s < n && i < n
    ensures d < n && At(s, d, n) == i
  {
    if s <= i then i - s else n - s + i
  }

  /** With some slot eligible, the scan stops inside the table. */
  lemma ScanHits(ok: seq<bool>, s: nat)
    requires s < |ok| && AnyEligible(ok)
    ensures ScanFrom(ok, s, 0) < |ok|
  {
    var i :| 0 <= i < |ok| && ok[i];
    var d := OffsetTo(s, i, |ok|);
  }

  /** The slot a cyclic scan from s takes. */
  function Pick(ok: seq<bool>, s: nat): (r: nat)
    requires s < |ok| && AnyEligible(ok)
    ensures r < |ok| && ok[r]
  {
    ScanHits(ok, s);
    At(s, ScanFrom(ok, s, 0), |ok|)
  }

  /** The slot after x, wrapping round. */
  function Next(x: nat, n: nat): (r: nat)
    requires x < n
    ensures r < n
  {
    if x + 1 < n then x + 1 else 0
  }

  /** The pick that follows pick x: the scan from the slot after x. */
  function Succ(ok: seq<bool>, x: nat): (r: nat)
    requires x < |ok| && AnyEligible(ok)
    ensures r < |ok| && ok[r]
  {
    Pick(ok, Next(x, |ok|))
  }

  /** The k-th pick after x, the state staying the same. */
  function Orbit(ok: seq<bool>, x: nat, k: nat): (r: nat)
    requires x < |ok| && AnyEligible(ok)
    ensures r < |ok|
    ensures k > 0 ==> ok[r]
    decreases k
  {
    if k == 0 then x else Succ(ok, Orbit(ok, x, k - 1))
  }

  /** The eligible slots below m, in increasing order. */
  function Eligible(ok: seq<bool>, m: nat): (r: seq<nat>)
    requires m <= |ok|
    ensures forall j :: 0 <= j < |r| ==> r[j] < m && ok[r[j]]
    ensures forall j1, j2 :: 0 <= j1 < j2 < |r| ==> r[j1] < r[j2]
    decreases m
  {
    if m == 0 then [] else Eligible(ok, m - 1) + (if ok[m - 1] then [m - 1] else [])
  }

  /** The eligible slots below i come first among those below m. */
  lemma {:induction false} EligiblePrefix(ok: seq<bool>, i: nat, m: nat)
    requires i <= m <= |ok|
    ensures |Eligible(ok, i)| <= |Eligible(ok, m)|
    ensures forall t :: 0 <= t < |Eligible(ok, i)| ==> Eligible(ok, m)[t] == Eligible(ok, i)[t]
    decreases m - i
  {
    if i < m {
      EligiblePrefix(ok, i, m - 1);
    }
  }

  /** An eligible slot i is listed, at position the number of eligible slots below it. */
  lemma EligibleIndex(ok: seq<bool>, m: nat, i: nat)
    requires i < m <= |ok| && ok[i]
    ensures |Eligible(ok, i)| < |Eligible(ok, m)|
    ensures Eligible(ok, m)[|Eligible(ok, i)|] == i
  {
    assert Eligible(ok, i + 1) == Eligible(ok, i) + [i];
    EligiblePrefix(ok, i + 1, m);
  }

  /** The pick after the j-th eligible slot is the next eligible slot, wrapping round. */
  lemma SuccNext(ok: seq<bool>, j: nat)
    requires 0 < |ok| && j < |Eligible(ok, |ok|)|
    ensures AnyEligible(ok)
    ensures Succ(ok, Eligible(ok, |ok|)[j]) == Eligible(ok, |ok|)[NextPos(j, |Eligible(ok, |ok|)|)]
  {
    var p := Eligible(ok, |ok|);
    assert ok[p[j]];
    if j + 1 < |p| {
      SuccInside(ok, p, j);
    } else {
      SuccWraps(ok, p, j);
    }
  }

  /** Between two neighbouring eligible slots there is none. */
  lemma Gap(ok: seq<bool>, p: seq<nat>, j: nat, z: nat)
    requires p == Eligible(ok, |ok|) && j + 1 < |p|
    requires p[j] < z < p[j + 1] && z < |ok|
    ensures !ok[z]
  {
    if ok[z] {
      EligibleIndex(ok, |ok|, z);
      var t := |Eligible(ok, z)|;
      if t <= j { Ascending(p, t, j); } else { Ascending(p, j + 1, t); }
    }
  }

  /** The pick after an eligible slot that is not the last is the next one. */
  lemma SuccInside(ok: seq<bool>, p: seq<nat>, j: nat)
    requires p == Eligible(ok, |ok|) && j + 1 < |p|
    ensures AnyEligible(ok)
    ensures Succ(ok, p[j]) == p[j + 1]
  {
    var n := |ok|;
    var a := p[j];
    var b := p[j + 1];
    assert ok[a] && ok[b] && a < b;
    var s := a + 1;
    assert Next(a, n) == s;
    forall k | 0 <= k < b - s
      ensures !ok[At(s, k, n)]
    {
      Gap(ok, p, j, s + k);
    }
    assert At(s, b - s, n) == b;
    FirstHit(ok, s, b - s);
  }

  /** The pick after the last eligible slot is the first one. */
  lemma SuccWraps(ok: seq<bool>, p: seq<nat>, j: nat)
    requires p == Eligible(ok, |ok|) && j + 1 == |p|
    ensures AnyEligible(ok)
    ensures Succ(ok, p[j]) == p[0]
  {
    var n := |ok|;
    var a := p[j];
    assert ok[a];
    NoneAbove(ok, p, j);
    NoneBelow(ok, p);
    var first := p[0];
    var s := Next(a, n);
    var d := OffsetTo(s, first, n);
    forall k | 0 <= k < d
      ensures !ok[At(s, k, n)]
    {
    }
    FirstHit(ok, s, d);
  }

  /** The position after j among m eligible slots, wrapping round. */
  function NextPos(j: nat, m: nat): nat
    requires j < m
  {
    if j + 1 < m then j + 1 else 0
  }

  /** In an increasing list, a later entry is at least an earlier one. */
  lemma Ascending(p: seq<nat>, a: nat, b: nat)
    requires forall j1, j2 :: 0 <= j1 < j2 < |p| ==> p[j1] < p[j2]
    requires a <= b < |p|
    ensures p[a] <= p[b]
  {
  }

  /** In an increasing list, different positions hold different entries. */
  lemma Distinct(p: seq<nat>, a: nat, b: nat)
    requires forall j1, j2 :: 0 <= j1 < j2 < |p| ==> p[j1] < p[j2]
    requires a < |p| && b < |p| && a != b
    ensures p[a] != p[b]
  {
    if a < b { Ascending(p, a, b); } else { Ascending(p, b, a); }
  }

  /** No eligible slot lies above the last one. */
  lemma NoneAbove(ok: seq<bool>, p: seq<nat>, j: nat)
    requires p == Eligible(ok, |ok|) && j + 1 == |p|
    ensures forall z :: p[j] < z < |ok| ==> !ok[z]
  {
    forall z | p[j] < z < |ok|
      ensures !ok[z]
    {
      if ok[z] {
        EligibleIndex(ok, |ok|, z);
        Ascending(p, |Eligible(ok, z)|, j);
      }
    }
  }

  /** No eligible slot lies below the first one. */
  lemma NoneBelow(ok: seq<bool>, p: seq<nat>)
    requires p == Eligible(ok, |ok|) && |p| > 0
    ensures forall z :: 0 <= z < p[0] ==> !ok[z]
  {
    forall z | 0 <= z < p[0]
      ensures !ok[z]
    {
      if ok[z] {
        EligibleIndex(ok, |ok|, z);
        Ascending(p, 0, |Eligible(ok, z)|);
      }
    }
  }

  /** The position of the k-th pick after position j among m, counting round. */
  function Ahead(j: nat, k: nat, m: nat): (r: nat)
    requires j < m
    ensures r < m
    decreases k
  {
    if k == 0 then j else NextPos(Ahead(j, k - 1, m), m)
  }

  /** k picks after the j-th eligible slot land on the eligible slot k positions further on. */
  lemma {:induction false} OrbitFrom(ok: seq<bool>, j: nat, k: nat)
    requires 0 < |ok| && j < |Eligible(ok, |ok|)|
    ensures AnyEligible(ok)
    ensures Orbit(ok, Eligible(ok, |ok|)[j], k) == Eligible(ok, |ok|)[Ahead(j, k, |Eligible(ok, |ok|)|)]
    decreases k
  {
    var p := Eligible(ok, |ok|);
    var x := p[j];
    assert ok[x];
    if k > 0 {
      var i := Ahead(j, k - 1, |p|);
      OrbitFrom(ok, j, k - 1);
      var y := Orbit(ok, x, k - 1);
      assert y == p[i];
      assert Orbit(ok, x, k) == Succ(ok, y);
      SuccNext(ok, i);
      assert Succ(ok, p[i]) == p[NextPos(i, |p|)];
    }
  }

  /** Counting k positions round from j among m: where that lands. */
  lemma {:induction false} AheadIs(j: nat, k: nat, m: nat)
    requires j < m && k <= m
    ensures Ahead(j, k, m) == if j + k < m then j + k else j + k - m
    decreases k
  {
    if k > 0 {
      AheadIs(j, k - 1, m);
    }
  }

  /** The k-th pick from x, for the eligible slot x at position j. */
  lemma OrbitAt(ok: seq<bool>, x: nat, k: nat)
    requires x < |ok| && ok[x] && k <= |Eligible(ok, |ok|)|
    ensures AnyEligible(ok)
    ensures |Eligible(ok, x)| < |Eligible(ok, |ok|)|
    ensures var j, m := |Eligible(ok, x)|, |Eligible(ok, |ok|)|;
      Orbit(ok, x, k) == Eligible(ok, |ok|)[if j + k < m then j + k else j + k - m]
  {
    EligibleIndex(ok, |ok|, x);
    var j := |Eligible(ok, x)|;
    var m := |Eligible(ok, |ok|)|;
    OrbitFrom(ok, j, k);
    AheadIs(j, k, m);
  }

  /** |Eligible| picks from an eligible slot come back to it. */
  lemma OrbitReturns(ok: seq<bool>, x: nat)
    requires x < |ok| && ok[x]
    ensures AnyEligible(ok)
    ensures Orbit(ok, x, |Eligible(ok, |ok|)|) == x
  {
    var m := |Eligible(ok, |ok|)|;
    EligibleIndex(ok, |ok|, x);
    var j := |Eligible(ok, x)|;
    OrbitAt(ok, x, m);
    assert (if j + m < m then j + m else j + m - m) == j;
  }

  /** How many picks from x it takes to reach y: the distance from x to y among the eligible slots. */
  function Steps(ok: seq<bool>, x: nat, y: nat): (k: nat)
    requires x <= |ok| && y <= |ok|
  {
    EligiblePrefix(ok, x, |ok|);
    var j, t, m := |Eligible(ok, x)|, |Eligible(ok, y)|, |Eligible(ok, |ok|)|;
    if t > j then t - j else t + m - j
  }

  /** Every eligible slot is among the first |Eligible| picks from an eligible slot. */
  lemma OrbitCovers(ok: seq<bool>, x: nat, y: nat)
    requires x < |ok| && ok[x] && y < |ok| && ok[y]
    ensures AnyEligible(ok)
    ensures 1 <= Steps(ok, x, y) <= |Eligible(ok, |ok|)|
    ensures Orbit(ok, x, Steps(ok, x, y)) == y
  {
    var p := Eligible(ok, |ok|);
    var m := |p|;
    var j := |Eligible(ok, x)|;
    var t := |Eligible(ok, y)|;
    assert j < m && p[j] == x by {
      EligibleIndex(ok, |ok|, x);
    }
    assert t < m && p[t] == y by {
      EligibleIndex(ok, |ok|, y);
    }
    var k := Steps(ok, x, y);
    assert k == (if t > j then t - j else t + m - j) && 1 <= k <= m;
    OrbitAt(ok, x, k);
    assert (if j + k < m then j + k else j + k - m) == t;
  }

  /** The first |Eligible| picks from an eligible slot are all different. */
  lemma OrbitDistinct(ok: seq<bool>, x: nat, k1: nat, k2: nat)
    requires x < |ok| && ok[x] && 1 <= k1 < k2 <= |Eligible(ok, |ok|)|
    ensures AnyEligible(ok)
    ensures Orbit(ok, x, k1) != Orbit(ok, x, k2)
  {
    var p := Eligible(ok, |ok|);
    var m := |p|;
    OrbitAt(ok, x, k1);
    OrbitAt(ok, x, k2);
    var j := |Eligible(ok, x)|;
    var i1 := if j + k1 < m then j + k1 else j + k1 - m;
    var i2 := if j + k2 < m then j + k2 else j + k2 - m;
    assert i1 != i2;
    Distinct(p, i1, i2);
  }

  /**
   * Fairness of the cyclic scan: starting from an eligible slot x and
   * repeating the scan from each pick, the first |Eligible| picks are all
   * different, every eligible slot is among them, and the last is x again.
   */
  lemma CyclicFairness(ok: seq<bool>, x: nat)
    requires x < |ok| && ok[x]
    ensures AnyEligible(ok)
    ensures Orbit(ok, x, |Eligible(ok, |ok|)|) == x
    ensures forall y :: 0 <= y < |ok| && ok[y] ==>
      1 <= Steps(ok, x, y) <= |Eligible(ok, |ok|)| && Orbit(ok, x, Steps(ok, x, y)) == y
    ensures forall k1, k2 :: 1 <= k1 < k2 <= |Eligible(ok, |ok|)| ==> Orbit(ok, x, k1) != Orbit(ok, x, k2)
  {
    OrbitReturns(ok, x);
    forall y | 0 <= y < |ok| && ok[y]
      ensures 1 <= Steps(ok, x, y) <= |Eligible(ok, |ok|)| && Orbit(ok, x, Steps(ok, x, y)) == y
    {
      OrbitCovers(ok, x, y);
    }
    forall k1, k2 | 1 <= k1 < k2 <= |Eligible(ok, |ok|)|
      ensures Orbit(ok, x, k1) != Orbit(ok, x, k2)
    {
      OrbitDistinct(ok, x, k1, k2);
    }
  }

  /** The wrap-around of At is the remainder `(s + k) % n` of the C code. */
  lemma ModAt(s: nat, k: nat, n: nat)
    requires s < n && k < n
    ensures (s + k) % n == At(s, k, n)
  {
    if s + k < n {
      DivUnique(s + k, n, 0, s + k);
    } else {
      DivUnique(s + k, n, 1, s + k - n);
    }
  }

  /** The scan from s stops at the first eligible slot: every slot it passes before its pick is not eligible. */
  lemma PickFirst(ok: seq<bool>, s: nat)
    requires s < |ok| && AnyEligible(ok)
    ensures OffsetTo(s, Pick(ok, s), |ok|) == ScanFrom(ok, s, 0)
    ensures forall k :: 0 <= k < OffsetTo(s, Pick(ok, s), |ok|) ==> !ok[At(s, k, |ok|)]
  {
    ScanHits(ok, s);
    var d := ScanFrom(ok, s, 0);
    var e := OffsetTo(s, Pick(ok, s), |ok|);
    assert At(s, e, |ok|) == At(s, d, |ok|);
  }

  // ---------------------------------------------------------------------
  // The two modes of rtosScheduler
  // ---------------------------------------------------------------------

  /** Which of the first n slots hold READY tasks. */
  function ReadyFlags(tcb: seq<Tcb>, n: nat): (r: seq<bool>)
    requires n <= |tcb|
    ensures |r| == n
    ensures forall i :: 0 <= i < n ==> (r[i] <==> tcb[i].state == Ready)
  {
    seq(n, i requires 0 <= i < n => tcb[i].state == Ready)
  }

  /** Which of the first n slots hold READY tasks of priority hp: the peers the priority mode rotates among. */
  function LevelFlags(tcb: seq<Tcb>, n: nat, hp: nat): (r: seq<bool>)
    requires n <= |tcb|
    ensures |r| == n
    ensures forall i :: 0 <= i < n ==> (r[i] <==> tcb[i].state == Ready && tcb[i].priority == hp)
  {
    seq(n, i requires 0 <= i < n => tcb[i].state == Ready && tcb[i].priority == hp)
  }

  /**
   * The first loop of the priority mode over slots 0 .. i-1: HighestPriority
   * (16 until a READY task of priority below 16 is seen) and `task`, the
   * first slot holding a READY task of that priority (unchanged from task0
   * when there is none).
   */
  function Highest(tcb: seq<Tcb>, i: nat, task0: nat): (r: (nat, nat))
    requires i <= |tcb|
    ensures r.0 <= NumPriorities
    ensures forall j :: 0 <= j < i && tcb[j].state == Ready ==> r.0 <= tcb[j].priority
    ensures r.0 < NumPriorities ==> r.1 < i && tcb[r.1].state == Ready && tcb[r.1].priority == r.0
    ensures r.0 == NumPriorities ==> r.1 == task0
    decreases i
  {
    if i == 0 then (NumPriorities, task0)
    else
      var h := Highest(tcb, i - 1, task0);
      if tcb[i - 1].state == Ready && tcb[i - 1].priority < h.0 then (tcb[i - 1].priority as nat, i - 1) else h
  }

  /** Some READY task has a priority below 16, so the priority mode has a level to serve. */
  ghost predicate PriorityRunnable(tcb: seq<Tcb>) {
    exists i :: 0 <= i < |tcb| && tcb[i].state == Ready && tcb[i].priority < NumPriorities
  }

  /** Some task is READY, so the round-robin loop ends. */
  ghost predicate AnyReady(tcb: seq<Tcb>) {
    exists i :: 0 <= i < |tcb| && tcb[i].state == Ready
  }

  /** What the scheduler relies on: twelve slots, the live ones (below count) first. */
  ghost predicate Slots(tcb: seq<Tcb>, count: nat) {
    |tcb| == MaxTasks && count <= MaxTasks && LiveSlots(tcb, count)
  }

  /** With a READY task of priority below 16, HighestPriority ends below 16. */
  lemma HighestFound(tcb: seq<Tcb>, count: nat)
    requires Slots(tcb, count) && PriorityRunnable(tcb)
    ensures Highest(tcb, |tcb|, 0).0 < NumPriorities
    ensures Highest(tcb, |tcb|, 0).1 < count
  {
    var i :| 0 <= i < |tcb| && tcb[i].state == Ready && tcb[i].priority < NumPriorities;
    var h := Highest(tcb, |tcb|, 0);
    assert h.0 <= tcb[i].priority;
    assert tcb[h.1].state != Invalid;
  }

  /** The priority level the priority mode serves: the best priority of a READY task. */
  function TopLevel(tcb: seq<Tcb>, count: nat): (hp: nat)
    requires Slots(tcb, count) && PriorityRunnable(tcb)
    ensures hp < NumPriorities
    ensures forall j :: 0 <= j < MaxTasks && tcb[j].state == Ready ==> hp <= tcb[j].priority
    ensures AnyEligible(LevelFlags(tcb, count, hp))
  {
    HighestFound(tcb, count);
    var h := Highest(tcb, |tcb|, 0);
    assert LevelFlags(tcb, count, h.0)[h.1];
    h.0
  }

  /** The slot the scan of the priority mode starts from: `(LastRanTask[hp] + 1) % taskCount` (see ReduceMod). */
  function LevelStart(tcb: seq<Tcb>, count: nat, last: seq<u8>): (s: nat)
    requires Slots(tcb, count) && PriorityRunnable(tcb) && |last| == NumPriorities
    ensures s < count
  {
    var flags := LevelFlags(tcb, count, TopLevel(tcb, count));
    assert |flags| == count;
    Reduce(last[TopLevel(tcb, count)] as nat + 1, count)
  }

  /** a reduced below n by repeated subtraction: `a % n`, without the nonlinear remainder. */
  function Reduce(a: nat, n: nat): (r: nat)
    requires n >= 1
    ensures r < n
    decreases a
  {
    if a < n then a else Reduce(a - n, n)
  }

  /** Reduce is the remainder of the C code. */
  lemma {:induction false} ReduceMod(a: nat, n: nat)
    requires n >= 1
    ensures Reduce(a, n) == a % n
    decreases a
  {
    if a < n {
      DivUnique(a, n, 0, a);
    } else {
      ReduceMod(a - n, n);
      var q := (a - n) / n;
      var r := (a - n) % n;
      assert a - n == q * n + r;
      assert a == (q + 1) * n + r;
      DivUnique(a, n, q + 1, r);
    }
  }

  /**
   * rtosScheduler in priority mode: the task it returns and the new
   * LastRanTask. The pick is a READY task at the best priority of any
   * READY task, the first such peer at or after LevelStart going round the
   * live slots, and it is recorded as the last one run at that level.
   */
  function PriorityStep(tcb: seq<Tcb>, count: nat, last: seq<u8>): (r: (nat, seq<u8>))
    requires Slots(tcb, count) && PriorityRunnable(tcb) && |last| == NumPriorities
    ensures r.0 < count && tcb[r.0].state == Ready
    ensures tcb[r.0].priority as nat == TopLevel(tcb, count)
    ensures forall j :: 0 <= j < MaxTasks && tcb[j].state == Ready ==> tcb[r.0].priority <= tcb[j].priority
    ensures r.1 == last[TopLevel(tcb, count) := r.0 as u8]
  {
    var hp := TopLevel(tcb, count);
    var p := Pick(LevelFlags(tcb, count, hp), LevelStart(tcb, count, last));
    (p, last[hp := p as u8])
  }

  /** The first loop of the priority mode ends on TopLevel, with a live slot, whatever `task` held before. */
  lemma HighestIsTop(tcb: seq<Tcb>, count: nat, task0: nat, hp: nat, t: nat)
    requires Slots(tcb, count) && PriorityRunnable(tcb)
    requires (hp, t) == Highest(tcb, |tcb|, task0)
    ensures hp == TopLevel(tcb, count) && hp < NumPriorities && t < count
    ensures AnyEligible(LevelFlags(tcb, count, hp))
  {
    LevelOfHighest(tcb, count, task0);
  }

  /** The level the first loop of the priority mode ends on is TopLevel, whatever `task` held before. */
  lemma LevelOfHighest(tcb: seq<Tcb>, count: nat, task0: nat)
    requires Slots(tcb, count) && PriorityRunnable(tcb)
    ensures Highest(tcb, |tcb|, task0).0 == TopLevel(tcb, count)
    ensures Highest(tcb, |tcb|, task0).1 < count
  {
    var i :| 0 <= i < |tcb| && tcb[i].state == Ready && tcb[i].priority < NumPriorities;
    var h := Highest(tcb, |tcb|, task0);
    var g := Highest(tcb, |tcb|, 0);
    HighestFound(tcb, count);
    assert h.0 <= tcb[i].priority;
    assert h.0 <= tcb[g.1].priority;
    assert g.0 <= tcb[h.1].priority;
    assert tcb[h.1].state != Invalid;
  }

  /** The pick of the priority mode, unfolded: the scan of the top level from LevelStart. */
  lemma PriorityStepIs(tcb: seq<Tcb>, count: nat, last: seq<u8>, hp: nat)
    requires Slots(tcb, count) && PriorityRunnable(tcb) && |last| == NumPriorities
    requires hp == TopLevel(tcb, count)
    ensures var p := Pick(LevelFlags(tcb, count, hp), Reduce(last[hp] as nat + 1, count));
      PriorityStep(tcb, count, last) == (p, last[hp := p as u8])
  {
    assert LevelStart(tcb, count, last) == Reduce(last[hp] as nat + 1, count);
  }

  /** rtosScheduler in round-robin mode: the first READY slot after `task`, going round all twelve. */
  function RoundRobinStep(tcb: seq<Tcb>, task: nat): (r: nat)
    requires |tcb| == MaxTasks && AnyReady(tcb)
    ensures r < MaxTasks && tcb[r].state == Ready
  {
    ReadyWitness(tcb);
    Pick(ReadyFlags(tcb, MaxTasks), if task + 1 < MaxTasks then task + 1 else 0)
  }

  lemma ReadyWitness(tcb: seq<Tcb>)
    requires |tcb| == MaxTasks && AnyReady(tcb)
    ensures AnyEligible(ReadyFlags(tcb, MaxTasks))
  {
    var i :| 0 <= i < |tcb| && tcb[i].state == Ready;
    assert ReadyFlags(tcb, MaxTasks)[i];
  }

  /**
   * Round robin takes the first READY slot strictly after the previous
   * pick, modulo twelve: that is the successor of the pick in the cyclic
   * scan, and every slot it passes over is not READY.
   */
  lemma RoundRobinNext(tcb: seq<Tcb>, task: nat)
    requires |tcb| == MaxTasks && AnyReady(tcb) && task < MaxTasks
    ensures AnyEligible(ReadyFlags(tcb, MaxTasks))
    ensures RoundRobinStep(tcb, task) == Succ(ReadyFlags(tcb, MaxTasks), task)
    ensures var s := Next(task, MaxTasks);
      forall k :: 0 <= k < OffsetTo(s, RoundRobinStep(tcb, task), MaxTasks) ==> tcb[At(s, k, MaxTasks)].state != Ready
  {
    ReadyWitness(tcb);
    PickFirst(ReadyFlags(tcb, MaxTasks), Next(task, MaxTasks));
  }

  /**
   * Round-robin fairness: from a READY task, with no state changing, the
   * next |Eligible| picks are all different, every READY task is among
   * them, and the last is the task itself (ok holds the READY flags).
   */
  lemma RoundRobinFair(tcb: seq<Tcb>, task: nat, ok: seq<bool>)
    requires |tcb| == MaxTasks && task < MaxTasks && tcb[task].state == Ready
    requires ok == ReadyFlags(tcb, |tcb|)
    ensures AnyEligible(ok) && Orbit(ok, task, |Eligible(ok, |ok|)|) == task
    ensures forall y :: 0 <= y < |ok| && tcb[y].state == Ready ==>
      (1 <= Steps(ok, task, y) <= |Eligible(ok, |ok|)| && Orbit(ok, task, Steps(ok, task, y)) == y)
    ensures forall k1, k2 :: 1 <= k1 < k2 <= |Eligible(ok, |ok|)| ==> Orbit(ok, task, k1) != Orbit(ok, task, k2)
  {
    assert ok[task];
    CyclicFairness(ok, task);
  }

  /** LastRanTask after k calls of the priority mode on an unchanging tcb table. */
  function Calls(tcb: seq<Tcb>, count: nat, last: seq<u8>, k: nat): (r: seq<u8>)
    requires Slots(tcb, count) && PriorityRunnable(tcb) && |last| == NumPriorities
    ensures |r| == NumPriorities
    decreases k
  {
    if k == 0 then last else NextLast(tcb, count, Calls(tcb, count, last, k - 1))
  }

  /** LastRanTask after one call of the priority mode. */
  function NextLast(tcb: seq<Tcb>, count: nat, last: seq<u8>): (r: seq<u8>)
    requires Slots(tcb, count) && PriorityRunnable(tcb) && |last| == NumPriorities
    ensures |r| == NumPriorities
  {
    PriorityStep(tcb, count, last).1
  }

  /** LastRanTask[hp] names a READY peer at the top level. */
  ghost predicate AtPeer(tcb: seq<Tcb>, count: nat, last: seq<u8>)
    requires Slots(tcb, count) && PriorityRunnable(tcb) && |last| == NumPriorities
  {
    var hp := TopLevel(tcb, count);
    last[hp] < count && LevelFlags(tcb, count, hp)[last[hp]]
  }

  /** The pick of the priority mode from a LastRanTask that is a peer is the successor of that peer. */
  lemma PriorityStepIsSucc(tcb: seq<Tcb>, count: nat, last: seq<u8>)
    requires Slots(tcb, count) && PriorityRunnable(tcb) && |last| == NumPriorities
    requires AtPeer(tcb, count, last)
    ensures PriorityStep(tcb, count, last).0 == Succ(LevelFlags(tcb, count, TopLevel(tcb, count)), last[TopLevel(tcb, count)] as nat)
  {
    var hp := TopLevel(tcb, count);
    var x := last[hp] as nat;
    assert LevelStart(tcb, count, last) == Reduce(x + 1, count);
    if x + 1 >= count {
      assert Reduce(x + 1 - count, count) == 0;
    }
    assert LevelStart(tcb, count, last) == Next(x, count);
  }

  /** k calls of the priority mode from a peer walk the orbit of that peer over the peers of level hp. */
  lemma {:induction false} CallsOrbit(tcb: seq<Tcb>, count: nat, last: seq<u8>, hp: nat, flags: seq<bool>, k: nat)
    requires Slots(tcb, count) && PriorityRunnable(tcb) && |last| == NumPriorities
    requires hp == TopLevel(tcb, count) && flags == LevelFlags(tcb, count, hp)
    requires AtPeer(tcb, count, last)
    ensures AnyEligible(flags) && last[hp] < |flags|
    ensures Calls(tcb, count, last, k)[hp] as nat == Orbit(flags, last[hp] as nat, k)
    ensures AtPeer(tcb, count, Calls(tcb, count, last, k))
    decreases k
  {
    if k > 0 {
      var km := k - 1;
      CallsOrbit(tcb, count, last, hp, flags, km);
      var prev := Calls(tcb, count, last, km);
      CallsStep(tcb, count, hp, flags, prev, last[hp] as nat, km);
      assert Calls(tcb, count, last, k) == NextLast(tcb, count, prev);
    }
  }

  /** One more call moves LastRanTask[hp] one step further along the orbit, to a peer again. */
  lemma CallsStep(tcb: seq<Tcb>, count: nat, hp: nat, flags: seq<bool>, prev: seq<u8>, x: nat, km: nat)
    requires Slots(tcb, count) && PriorityRunnable(tcb) && |prev| == NumPriorities
    requires hp == TopLevel(tcb, count) && flags == LevelFlags(tcb, count, hp)
    requires AnyEligible(flags) && x < |flags|
    requires AtPeer(tcb, count, prev) && prev[hp] as nat == Orbit(flags, x, km)
    ensures NextLast(tcb, count, prev)[hp] as nat == Orbit(flags, x, km + 1)
    ensures AtPeer(tcb, count, NextLast(tcb, count, prev))
  {
    PriorityStepIsSucc(tcb, count, prev);
    assert Orbit(flags, x, km + 1) == Succ(flags, Orbit(flags, x, km));
  }

  /** Every number of calls of the priority mode from a peer walks the orbit of that peer. */
  lemma CallsOrbitAll(tcb: seq<Tcb>, count: nat, last: seq<u8>, hp: nat, flags: seq<bool>)
    requires Slots(tcb, count) && PriorityRunnable(tcb) && |last| == NumPriorities
    requires hp == TopLevel(tcb, count) && flags == LevelFlags(tcb, count, hp)
    requires AtPeer(tcb, count, last)
    ensures AnyEligible(flags) && last[hp] < |flags|
    ensures forall k: nat :: Calls(tcb, count, last, k)[hp] as nat == Orbit(flags, last[hp] as nat, k)
  {
    CallsOrbit(tcb, count, last, hp, flags, 0);
    forall k: nat
      ensures Calls(tcb, count, last, k)[hp] as nat == Orbit(flags, last[hp] as nat, k)
    {
      CallsOrbit(tcb, count, last, hp, flags, k);
    }
  }

  /**
   * Fairness within a priority level: when the last task run at the top
   * level is one of its M READY peers and no state changes, the next M
   * calls pick every peer exactly once and end on that task again.
   */
  lemma PriorityFair(tcb: seq<Tcb>, count: nat, last: seq<u8>)
    requires Slots(tcb, count) && PriorityRunnable(tcb) && |last| == NumPriorities
    requires AtPeer(tcb, count, last)
    ensures var hp := TopLevel(tcb, count); var m := |Eligible(LevelFlags(tcb, count, hp), count)|;
      Calls(tcb, count, last, m)[hp] == last[hp]
    ensures var hp := TopLevel(tcb, count); var flags := LevelFlags(tcb, count, hp);
      forall y :: 0 <= y < count && tcb[y].state == Ready && tcb[y].priority as nat == hp ==>
        (1 <= Steps(flags, last[hp] as nat, y) <= |Eligible(flags, count)| &&
         Calls(tcb, count, last, Steps(flags, last[hp] as nat, y))[hp] as nat == y)
    ensures var hp := TopLevel(tcb, count); var m := |Eligible(LevelFlags(tcb, count, hp), count)|;
      forall k1, k2 :: 1 <= k1 < k2 <= m ==> Calls(tcb, count, last, k1)[hp] != Calls(tcb, count, last, k2)[hp]
  {
    var hp := TopLevel(tcb, count);
    var flags := LevelFlags(tcb, count, hp);
    var x := last[hp] as nat;
    assert flags[x];
    CyclicFairness(flags, x);
    CallsOrbitAll(tcb, count, last, hp, flags);
    forall y | 0 <= y < count && tcb[y].state == Ready && tcb[y].priority as nat == hp
      ensures flags[y]
    {
    }
  }
}
