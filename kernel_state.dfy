// The state of the kernel of src/kernel.c and its service calls as
// transitions of that state.
//
// A task control block, a mutex and a semaphore are values (C structs held
// in fixed arrays); Kv is the state every service call reads and writes:
// the tcb table, the mutex and semaphore tables, taskCurrent and
// taskCount. The Kernel class of module Kernel holds the same state in
// arrays and is proved against the functions here.
//
// kernel.h is not part of this model; the table sizes it defines are the
// constants below (twelve tasks, one mutex and three semaphores, each wait
// queue two entries deep).

module KernelState {
  import opened Machine
  import opened GetInput

  const MaxTasks: nat := 12
  const NumPriorities: nat := 16
  const MaxMutexes: nat := 1
  const MaxMutexQueueSize: nat := 2
  const MaxSemaphores: nat := 3
  const MaxSemaphoreQueueSize: nat := 2

  /** Length of the name field of a task control block. */
  const NameLength: nat := 16

  /** The 40 sub-region-disable bits of the five SRAM regions, all set: no access. */
  const NoAccess: Mask := Span(0, 40)

  /** STATE_INVALID .. STATE_BLOCKED_SEMAPHORE. */
  datatype TaskState = Invalid | Stopped | Ready | Delayed | BlockedMutex | BlockedSemaphore

  /** struct _tcb; the pid is the task function's address, as a number. */
  datatype Tcb = Tcb(
    state: TaskState,
    pid: u32,
    spInit: u32,
    sp: u32,
    priority: u8,
    baseAddress: u32,
    ticks: u32,
    srd: Mask,
    name: seq<char>,
    mutex: u8,
    semaphore: u8,
    allocation: u32,
    threadSize: u32)

  /** A tcb record as the zero-initialised global leaves it. */
  const EmptyTcb := Tcb(Invalid, 0, 0, 0, 0, 0, 0, {}, seq(NameLength, _ => Nul), 0, 0, 0, 0)

  /** struct _mutex: the wait queue is processQueue[0 .. queueSize-1]. */
  datatype Mutex = Mutex(lock: bool, queueSize: u8, processQueue: seq<u8>, lockedBy: u8)

  /** struct _semaphore. */
  datatype Semaphore = Semaphore(count: u8, queueSize: u8, processQueue: seq<u8>)

  const EmptyMutex := Mutex(false, 0, seq(MaxMutexQueueSize, _ => 0), 0)
  const EmptySemaphore := Semaphore(0, 0, seq(MaxSemaphoreQueueSize, _ => 0))

  /** The kernel state the service calls act on. */
  datatype Kv = Kv(tcb: seq<Tcb>, mutexes: seq<Mutex>, semaphores: seq<Semaphore>, taskCurrent: nat, taskCount: nat)

  // ---------------------------------------------------------------------
  // Wait queues
  // ---------------------------------------------------------------------

  /** The tasks waiting in a queue, first in line first. */
  function Waiters(q: seq<u8>, size: nat): seq<u8> {
    if size <= |q| then q[..size] else q
  }

  /**
   * A wait queue is well formed: its array has cap entries, every entry
   * names a tcb slot, and the (at most cap) live ones name slots below
   * taskCount.
   */
  ghost predicate QueueOk(q: seq<u8>, size: nat, cap: nat, count: nat) {
    && |q| == cap && size <= cap
    && (forall j :: 0 <= j < cap ==> q[j] < MaxTasks)
    && (forall j :: 0 <= j < size ==> q[j] < count)
  }

  /**
   * The queue array after the entry at i is taken out of the live entries
   * 0 .. n-1 by shifting the later ones down: the live part keeps its order,
   * entry n-1 keeps its old value. Nothing moves when i == n.
   */
  function Removed(q: seq<u8>, i: nat, n: nat): (r: seq<u8>)
    requires i <= n <= |q|
    ensures |r| == |q|
    ensures i < n ==> r[..n - 1] == q[..i] + q[i + 1..n] && r[n - 1..] == q[n - 1..]
    ensures i == n ==> r == q
    ensures forall j :: 0 <= j < |q| ==> r[j] == if i <= j < n - 1 then q[j + 1] else q[j]
  {
    if i < n then
      assert (q[..i] + q[i + 1..n] + q[n - 1..])[..n - 1] == q[..i] + q[i + 1..n];
      q[..i] + q[i + 1..n] + q[n - 1..]
    else q
  }

  /** Taking an entry out of a well-formed queue leaves a well-formed queue one shorter. */
  lemma RemovedOk(q: seq<u8>, i: nat, n: nat, cap: nat, count: nat)
    requires QueueOk(q, n, cap, count) && i < n
    ensures QueueOk(Removed(q, i, n), n - 1, cap, count)
  {
  }

  /** The first position below n holding x, or n: the search loop of KillThread. */
  function FirstIndex(q: seq<u8>, n: nat, x: nat): (r: nat)
    requires n <= |q|
    ensures r <= n
    ensures r < n ==> q[r] == x
    ensures forall j :: 0 <= j < r ==> q[j] != x
    ensures r == n <==> x !in q[..n]
  {
    FirstIndexFrom(q, n, x, 0)
  }

  function FirstIndexFrom(q: seq<u8>, n: nat, x: nat, i: nat): (r: nat)
    requires i <= n <= |q|
    ensures i <= r <= n
    ensures r < n ==> q[r] == x
    ensures forall j :: i <= j < r ==> q[j] != x
    ensures r == n ==> forall j :: i <= j < n ==> q[j] != x
    decreases n - i
  {
    if i == n then n else if q[i] == x then i else FirstIndexFrom(q, n, x, i + 1)
  }

  // ---------------------------------------------------------------------
  // Well-formed kernel states
  // ---------------------------------------------------------------------

  /** A tcb record whose name is a C string and whose mutex and semaphore indices exist. */
  ghost predicate TcbOk(t: Tcb) {
    |t.name| == NameLength && Nul in t.name && t.mutex < MaxMutexes && t.semaphore < MaxSemaphores
  }

  ghost predicate MutexOk(m: Mutex, count: nat) {
    QueueOk(m.processQueue, m.queueSize, MaxMutexQueueSize, count)
  }

  ghost predicate SemaphoreOk(s: Semaphore, count: nat) {
    QueueOk(s.processQueue, s.queueSize, MaxSemaphoreQueueSize, count)
  }

  /** Slots 0 .. taskCount-1 hold tasks; the others are INVALID. */
  ghost predicate LiveSlots(tcb: seq<Tcb>, count: nat)
    requires |tcb| == MaxTasks
  {
    forall i :: 0 <= i < MaxTasks ==> (tcb[i].state == Invalid <==> count <= i)
  }

  /** Every task blocked on a mutex is in the wait queue of that mutex. */
  ghost predicate BlockedQueued(tcb: seq<Tcb>, mutexes: seq<Mutex>)
    requires |tcb| == MaxTasks && |mutexes| == MaxMutexes
    requires forall i :: 0 <= i < MaxTasks ==> TcbOk(tcb[i])
  {
    forall t :: 0 <= t < MaxTasks && tcb[t].state == BlockedMutex ==>
      tcb[t].mutex < |mutexes| && t in Waiters(mutexes[tcb[t].mutex].processQueue, mutexes[tcb[t].mutex].queueSize)
  }

  /** The tables have their sizes, their indices are in range, and the live slots lead. */
  ghost predicate Shape(v: Kv) {
    && |v.tcb| == MaxTasks && |v.mutexes| == MaxMutexes && |v.semaphores| == MaxSemaphores
    && v.taskCount <= MaxTasks && v.taskCurrent < MaxTasks
    && (forall i :: 0 <= i < MaxTasks ==> TcbOk(v.tcb[i]))
    && (forall m :: 0 <= m < MaxMutexes ==> MutexOk(v.mutexes[m], v.taskCount))
    && (forall s :: 0 <= s < MaxSemaphores ==> SemaphoreOk(v.semaphores[s], v.taskCount))
    && LiveSlots(v.tcb, v.taskCount)
  }

  /** The kernel invariant: a well-shaped state in which every task blocked on a mutex is queued on it. */
  ghost predicate Inv(v: Kv) {
    Shape(v) && BlockedQueued(v.tcb, v.mutexes)
  }

  /** A task is running: taskCurrent, the caller of a service call, names a live slot. */
  ghost predicate Running(v: Kv) {
    v.taskCurrent < v.taskCount
  }

  /** The state of an unused slot table: every record zero. */
  const Boot := Kv(seq(MaxTasks, _ => EmptyTcb), seq(MaxMutexes, _ => EmptyMutex),
                   seq(MaxSemaphores, _ => EmptySemaphore), 0, 0)

  // ---------------------------------------------------------------------
  // Service calls on the synchronisation primitives
  // ---------------------------------------------------------------------

  function SetState(tcb: seq<Tcb>, i: nat, s: TaskState): (r: seq<Tcb>)
    requires i < |tcb|
    ensures |r| == |tcb| && r[i].state == s
    ensures forall j :: 0 <= j < |tcb| && j != i ==> r[j] == tcb[j]
  {
    tcb[i := tcb[i].(state := s)]
  }

  /** The mutex a lock, unlock or wait names must be in the table, as must a semaphore. */
  ghost predicate LockCanQueue(v: Kv, mx: nat)
    requires Shape(v) && mx < MaxMutexes
  {
    var m := v.mutexes[mx];
    m.lock && m.lockedBy != v.taskCurrent ==> m.queueSize < MaxMutexQueueSize
  }

  ghost predicate WaitCanQueue(v: Kv, s: nat)
    requires Shape(v) && s < MaxSemaphores
  {
    v.semaphores[s].count == 0 ==> v.semaphores[s].queueSize < MaxSemaphoreQueueSize
  }

  /**
   * Case 3, lock: take a free mutex, queue behind another holder, or do
   * nothing when the caller holds it already. Both changing branches record
   * the mutex index in tcb slot mx, not in the caller's slot.
   */
  function Lock(v: Kv, mx: nat): (r: Kv)
    requires Shape(v) && Running(v) && mx < MaxMutexes && LockCanQueue(v, mx)
    ensures Shape(r)
  {
    var m := v.mutexes[mx];
    var cur := v.taskCurrent;
    if !m.lock then
      v.(mutexes := v.mutexes[mx := m.(lock := true, lockedBy := cur)],
         tcb := v.tcb[mx := v.tcb[mx].(mutex := mx)])
    else if m.lockedBy != cur then
      var t1 := SetState(v.tcb, cur, BlockedMutex);
      v.(tcb := t1[mx := t1[mx].(mutex := mx)],
         mutexes := v.mutexes[mx := m.(processQueue := m.processQueue[m.queueSize := cur], queueSize := m.queueSize + 1)])
    else v
  }

  /**
   * The hand-off shared by unlock and KillThread: clear the lock, and when
   * tasks wait, wake the first, shift the rest down and make it the owner.
   * `relock` says whether the lock is set again for the new owner (unlock
   * does; KillThread does not).
   */
  function HandOff(v: Kv, mx: nat, relock: bool): (r: Kv)
    requires Shape(v) && mx < MaxMutexes
    ensures Shape(r) && r.taskCount == v.taskCount
  {
    var m := v.mutexes[mx];
    if m.queueSize == 0 then v.(mutexes := v.mutexes[mx := m.(lock := false)])
    else
      var next := m.processQueue[0];
      RemovedOk(m.processQueue, 0, m.queueSize, MaxMutexQueueSize, v.taskCount);
      v.(tcb := SetState(v.tcb, next, Ready),
         mutexes := v.mutexes[mx := Mutex(relock, m.queueSize - 1, Removed(m.processQueue, 0, m.queueSize), next)])
  }

  /** Case 4, unlock: only the recorded owner's unlock acts. */
  function Unlock(v: Kv, mx: nat): (r: Kv)
    requires Shape(v) && mx < MaxMutexes
    ensures Shape(r)
  {
    if v.mutexes[mx].lockedBy == v.taskCurrent then HandOff(v, mx, true) else v
  }

  /** Case 5, wait: take a unit, or queue and block. */
  function Wait(v: Kv, s: nat): (r: Kv)
    requires Shape(v) && Running(v) && s < MaxSemaphores && WaitCanQueue(v, s)
    ensures Shape(r)
  {
    var sem := v.semaphores[s];
    var cur := v.taskCurrent;
    if sem.count > 0 then v.(semaphores := v.semaphores[s := sem.(count := sem.count - 1)])
    else
      v.(semaphores := v.semaphores[s := sem.(processQueue := sem.processQueue[sem.queueSize := cur], queueSize := sem.queueSize + 1)],
         tcb := v.tcb[cur := v.tcb[cur].(state := BlockedSemaphore, semaphore := s)])
  }

  /**
   * The signalling shared by post and KillThread: add a unit (uint8_t
   * arithmetic), and when tasks wait, wake the first, shift the rest down
   * and take the unit back.
   */
  function Signal(v: Kv, s: nat): (r: Kv)
    requires Shape(v) && s < MaxSemaphores
    ensures Shape(r) && r.taskCount == v.taskCount
  {
    var sem := v.semaphores[s];
    var up := Trunc8(sem.count + 1);
    if sem.queueSize == 0 then v.(semaphores := v.semaphores[s := sem.(count := up)])
    else
      var sem' := Semaphore(Trunc8(up - 1), sem.queueSize - 1, Removed(sem.processQueue, 0, sem.queueSize));
      RemovedOk(sem.processQueue, 0, sem.queueSize, MaxSemaphoreQueueSize, v.taskCount);
      var r := v.(tcb := SetState(v.tcb, sem.processQueue[0], Ready), semaphores := v.semaphores[s := sem']);
      assert forall j :: 0 <= j < MaxSemaphores ==> SemaphoreOk(r.semaphores[j], r.taskCount);
      r
  }

  /** Case 6, post: signal, and when a task was woken record s in tcb slot s. */
  function Post(v: Kv, s: nat): (r: Kv)
    requires Shape(v) && s < MaxSemaphores
    ensures Shape(r)
  {
    var v1 := Signal(v, s);
    if v.semaphores[s].queueSize > 0 then v1.(tcb := v1.tcb[s := v1.tcb[s].(semaphore := s)]) else v1
  }

  /** Case 2, sleep: the caller waits for ticks timer ticks. */
  function Sleep(v: Kv, ticks: u32): (r: Kv)
    requires Shape(v) && Running(v)
    ensures Shape(r)
    ensures r.tcb[v.taskCurrent].state == Delayed && r.tcb[v.taskCurrent].ticks == ticks
    ensures r.tcb[v.taskCurrent].(state := v.tcb[v.taskCurrent].state, ticks := v.tcb[v.taskCurrent].ticks) == v.tcb[v.taskCurrent]
    ensures forall i :: 0 <= i < MaxTasks && i != v.taskCurrent ==> r.tcb[i] == v.tcb[i]
    ensures r.(tcb := v.tcb) == v
  {
    v.(tcb := v.tcb[v.taskCurrent := v.tcb[v.taskCurrent].(state := Delayed, ticks := ticks)])
  }

  // ---------------------------------------------------------------------
  // The timer tick
  // ---------------------------------------------------------------------

  /** systickIsr on one record: a DELAYED task counts down (uint32_t) and is READY at zero. */
  function Tick(t: Tcb): (r: Tcb)
  {
    if t.state != Delayed then t
    else
      var left := Trunc32(t.ticks - 1);
      t.(ticks := left, state := if left == 0 then Ready else Delayed)
  }

  /** systickIsr: every slot below taskCount ticks. */
  function TickAll(tcb: seq<Tcb>, count: nat): (r: seq<Tcb>)
    ensures |r| == |tcb|
    ensures forall i :: 0 <= i < |tcb| ==> r[i] == if i < count then Tick(tcb[i]) else tcb[i]
  {
    seq(|tcb|, i requires 0 <= i < |tcb| => if i < count then Tick(tcb[i]) else tcb[i])
  }

  // ---------------------------------------------------------------------
  // Finding tasks
  // ---------------------------------------------------------------------

  /** The test of KillThread and restart: the argument is the task's pid or points at its name. */
  predicate Matches(t: Tcb, pid: u32, name: seq<char>)
    requires Nul in t.name && Nul in name
  {
    pid == t.pid || CmpStr(t.name, name) == 0
  }

  /** The slot KillThread tears down: the first match that is not STOPPED. */
  function KillTarget(tcb: seq<Tcb>, pid: u32, name: seq<char>, i: nat): (r: Option<nat>)
    requires i <= |tcb| && Nul in name && forall j :: 0 <= j < |tcb| ==> Nul in tcb[j].name
    ensures r.Some? ==> i <= r.value < |tcb| && Matches(tcb[r.value], pid, name) && tcb[r.value].state != Stopped
    ensures forall j :: i <= j < |tcb| && (r.None? || j < r.value) ==> !Matches(tcb[j], pid, name) || tcb[j].state == Stopped
    decreases |tcb| - i
  {
    if i == |tcb| then None
    else if Matches(tcb[i], pid, name) && tcb[i].state != Stopped then Some(i)
    else KillTarget(tcb, pid, name, i + 1)
  }

  /** The slot restart looks at: the first match, in any state. */
  function FirstMatch(tcb: seq<Tcb>, pid: u32, name: seq<char>, i: nat): (r: Option<nat>)
    requires i <= |tcb| && Nul in name && forall j :: 0 <= j < |tcb| ==> Nul in tcb[j].name
    ensures r.Some? ==> i <= r.value < |tcb| && Matches(tcb[r.value], pid, name)
    ensures forall j :: i <= j < |tcb| && (r.None? || j < r.value) ==> !Matches(tcb[j], pid, name)
    decreases |tcb| - i
  {
    if i == |tcb| then None
    else if Matches(tcb[i], pid, name) then Some(i)
    else FirstMatch(tcb, pid, name, i + 1)
  }

  /** The slot pidof reports: the first whose name equals the argument. */
  function NameMatch(tcb: seq<Tcb>, name: seq<char>, i: nat): (r: Option<nat>)
    requires i <= |tcb| && Nul in name && forall j :: 0 <= j < |tcb| ==> Nul in tcb[j].name
    ensures r.Some? ==> i <= r.value < |tcb| && CStr(tcb[r.value].name) == CStr(name)
    ensures forall j :: i <= j < |tcb| && (r.None? || j < r.value) ==> CStr(tcb[j].name) != CStr(name)
    decreases |tcb| - i
  {
    if i == |tcb| then None
    else if CmpStr(tcb[i].name, name) == 0 then Some(i)
    else NameMatch(tcb, name, i + 1)
  }

  /** Some slot already has pid fn: createThread refuses it. */
  predicate PidTaken(tcb: seq<Tcb>, fn: u32) {
    exists i :: 0 <= i < |tcb| && tcb[i].pid == fn
  }

  // ---------------------------------------------------------------------
  // KillThread
  // ---------------------------------------------------------------------

  /** The mutex branch of KillThread: take the task out of the queue of its mutex. */
  function Unqueue(v: Kv, task: nat): (r: Kv)
    requires Shape(v) && task < MaxTasks
    requires task in Waiters(v.mutexes[v.tcb[task].mutex].processQueue, v.mutexes[v.tcb[task].mutex].queueSize)
    ensures Shape(r) && r.taskCount == v.taskCount
  {
    var mx := v.tcb[task].mutex;
    var m := v.mutexes[mx];
    assert m.queueSize >= 1;
    var i := FirstIndex(m.processQueue, m.queueSize, task);
    RemovedOk(m.processQueue, i, m.queueSize, MaxMutexQueueSize, v.taskCount);
    var m' := m.(processQueue := Removed(m.processQueue, i, m.queueSize), queueSize := Trunc8(m.queueSize - 1));
    WithMutex(v, mx, m');
    v.(mutexes := v.mutexes[mx := m'])
  }

  /** Replacing one mutex by a well-formed one keeps the shape of the state. */
  lemma WithMutex(v: Kv, mx: nat, m: Mutex)
    requires Shape(v) && mx < MaxMutexes && MutexOk(m, v.taskCount)
    ensures Shape(v.(mutexes := v.mutexes[mx := m]))
  {
  }

  /**
   * KillThread after the two frees: leave the wait queue of a blocked task
   * (a semaphore is signalled instead, which wakes its first waiter rather
   * than removing the task), hand off a mutex the task owns without setting
   * its lock, then deny all SRAM access and mark the task STOPPED.
   */
  function Teardown(v: Kv, task: nat): (r: Kv)
    requires Inv(v) && task < v.taskCount
    ensures Shape(r)
  {
    Retire(Release(LeaveQueue(v, task), task), task)
  }

  /** The first step of Teardown: the wait queue of a blocked task. */
  function LeaveQueue(v: Kv, task: nat): (r: Kv)
    requires Inv(v) && task < v.taskCount
    ensures Shape(r) && r.taskCount == v.taskCount
  {
    var t := v.tcb[task];
    if t.state == BlockedMutex then Unqueue(v, task)
    else if t.state == BlockedSemaphore then Signal(v, t.semaphore)
    else v
  }

  /** The second step of Teardown: a mutex recorded as held by the task passes on, unlocked. */
  function Release(v: Kv, task: nat): (r: Kv)
    requires Shape(v) && task < v.taskCount
    ensures Shape(r) && r.taskCount == v.taskCount
  {
    var mx := v.tcb[task].mutex;
    if v.mutexes[mx].lockedBy == task then HandOff(v, mx, false) else v
  }

  /** The last step of Teardown: no SRAM access, STOPPED. */
  function Retire(v: Kv, task: nat): (r: Kv)
    requires Shape(v) && task < v.taskCount
    ensures Shape(r)
    ensures r.tcb[task].state == Stopped && r.tcb[task].srd == NoAccess
    ensures r.tcb[task].(state := v.tcb[task].state, srd := v.tcb[task].srd) == v.tcb[task]
    ensures forall i :: 0 <= i < MaxTasks && i != task ==> r.tcb[i] == v.tcb[i]
    ensures r.(tcb := v.tcb) == v
  {
    v.(tcb := v.tcb[task := v.tcb[task].(srd := NoAccess, state := Stopped)])
  }

  // ---------------------------------------------------------------------
  // The initial stack frame
  // ---------------------------------------------------------------------

  /**
   * The seventeen words createThread and restart push below the stack top,
   * in push order: the hardware frame (xPSR, PC = pid, LR, R12, R3 .. R0),
   * R4 .. R11, and EXC_RETURN.
   */
  function InitialFrame(pid: u32): (r: seq<u32>)
    ensures |r| == 17
  {
    [0x0100_0000, pid, 0x0000_0001, 0x1212_1212, 0x0303_0303, 0x0202_0202, 0x0101_0101, 0x0000_001A,
     0xDEAD_0004, 0xDEAD_0005, 0xDEAD_0006, 0xDEAD_0007, 0xDEAD_0008, 0xDEAD_0009, 0xDEAD_0010, 0xDEAD_0011,
     0xFFFF_FFFD]
  }

  /** `top - 4 * (k + 1)` in uint32_t arithmetic: where `*(--p)` stores the k-th word pushed. */
  function Slot(top: u32, k: nat): (r: u32)
    requires k < 17
    ensures r == Trunc32(top - 4 * (k + 1))
  {
    if top >= 4 * (k + 1) then top - 4 * (k + 1) else top + 0x1_0000_0000 - 4 * (k + 1)
  }

  /** Address a is one of the seventeen frame words below top. */
  predicate InFrame(top: u32, a: u32) {
    exists k :: 0 <= k < 17 && a == Slot(top, k)
  }

  /** `base + RoundUp(bytes) - 4` in uint32_t arithmetic: the first stack pointer of a task. */
  function StackTop(base: u32, rounded: u32): (r: u32)
  {
    Trunc32(base + rounded - 4)
  }

  /** The addresses of the seventeen frame words below top. */
  function FrameAddresses(top: u32): (r: set<u32>)
    ensures forall k :: 0 <= k < 17 ==> Slot(top, k) in r
    ensures forall a :: a in r ==> InFrame(top, a)
  {
    set k | 0 <= k < 17 :: Slot(top, k)
  }

  /**
   * Memory ram is memory ram0 with the initial frame of a task with the
   * given pid pushed below top, and nothing else written.
   */
  ghost predicate FrameStored(ram: map<u32, u32>, ram0: map<u32, u32>, top: u32, pid: u32) {
    && ram.Keys == ram0.Keys + FrameAddresses(top)
    && (forall k :: 0 <= k < 17 ==> ram[Slot(top, k)] == InitialFrame(pid)[k])
    && (forall a :: a in ram0 && a !in FrameAddresses(top) ==> ram[a] == ram0[a])
  }

  // ---------------------------------------------------------------------
  // createThread, restart and initRtos
  // ---------------------------------------------------------------------

  /**
   * The name field after StringCopy(src, dst): the characters of src up to
   * its NUL, the NUL, then what dst held.
   */
  function CopyName(dst: seq<char>, src: seq<char>): (r: seq<char>)
    requires Nul in src && CLength(src) < |dst|
    ensures |r| == |dst| && Nul in r && CStr(r) == CStr(src)
  {
    var n := CLength(src);
    var r := src[..n] + [Nul] + dst[n + 1..];
    CopiedString(src, r);
    r
  }

  /**
   * The record createThread leaves in a free slot t: READY, with the new
   * pid, priority, name, stack (spInit the stack top, sp the bottom of the
   * initial frame) and SRAM window; ticks, mutex, semaphore and Allocation
   * keep the slot's old values.
   */
  function Created(t: Tcb, fn: u32, name: seq<char>, priority: u8, top: u32, base: u32, stackBytes: u32, srd: Mask): (r: Tcb)
    requires Nul in name && CLength(name) < |t.name|
  {
    t.(state := Ready, pid := fn, spInit := top, sp := Slot(top, 16), priority := priority,
       name := CopyName(t.name, name), srd := srd, baseAddress := base, threadSize := stackBytes)
  }

  /** createThread: the new task takes slot taskCount, the first free one, and taskCount grows. */
  function Create(v: Kv, fn: u32, name: seq<char>, priority: u8, top: u32, base: u32, stackBytes: u32, srd: Mask): (r: Kv)
    requires Shape(v) && v.taskCount < MaxTasks && Nul in name && CLength(name) < NameLength
    ensures Shape(r) && r.taskCount == v.taskCount + 1
  {
    var c := v.taskCount;
    var r := v.(tcb := v.tcb[c := Created(v.tcb[c], fn, name, priority, top, base, stackBytes, srd)], taskCount := c + 1);
    assert forall m :: 0 <= m < MaxMutexes ==> MutexOk(r.mutexes[m], r.taskCount);
    assert forall s :: 0 <= s < MaxSemaphores ==> SemaphoreOk(r.semaphores[s], r.taskCount);
    r
  }

  /**
   * Case 14 on a STOPPED slot: a new stack of the old size, ticks cleared,
   * the SRAM window of the new stack opened (on the bits the slot already
   * had), the initial frame, READY.
   */
  function Restarted(t: Tcb, top: u32, base: u32, srd: Mask): (r: Tcb)
  {
    t.(sp := Slot(top, 16), spInit := top, baseAddress := base, ticks := 0, srd := srd, state := Ready)
  }

  function Restart(v: Kv, task: nat, top: u32, base: u32, srd: Mask): (r: Kv)
    requires Shape(v) && task < MaxTasks && v.tcb[task].state == Stopped
    ensures Shape(r)
  {
    v.(tcb := v.tcb[task := Restarted(v.tcb[task], top, base, srd)])
  }

  /** Case 7 after the allocation: the caller records the block and its widened SRAM window. */
  function Granted(v: Kv, addr: u32, srd: Mask): (r: Kv)
    requires Shape(v) && Running(v)
    ensures Shape(r)
  {
    var cur := v.taskCurrent;
    v.(tcb := v.tcb[cur := v.tcb[cur].(allocation := addr, srd := srd)])
  }

  /** Every wait queue is empty: what initRtos relies on, since it keeps the queues. */
  ghost predicate QueuesEmpty(v: Kv)
    requires Shape(v)
  {
    (forall m :: 0 <= m < MaxMutexes ==> v.mutexes[m].queueSize == 0)
    && (forall s :: 0 <= s < MaxSemaphores ==> v.semaphores[s].queueSize == 0)
  }

  /** initRtos: no tasks, every slot INVALID with pid 0; the rest of each record stays. */
  function ClearTasks(v: Kv): (r: Kv)
    requires Shape(v) && QueuesEmpty(v)
    ensures Shape(r) && r.taskCount == 0
  {
    var r := v.(tcb := seq(MaxTasks, i requires 0 <= i < MaxTasks => v.tcb[i].(state := Invalid, pid := 0)), taskCount := 0);
    assert forall m :: 0 <= m < MaxMutexes ==> MutexOk(r.mutexes[m], r.taskCount);
    assert forall s :: 0 <= s < MaxSemaphores ==> SemaphoreOk(r.semaphores[s], r.taskCount);
    r
  }
}
