// The kernel of src/kernel.c: the tcb, mutex and semaphore tables, the
// scheduler with its static state, thread creation and teardown, the timer
// and PendSV handlers and the cases of the service call handler, over the
// same state updated in place.
//
// Every method is proved against the functions of module KernelState (the
// new View() is a function of the old one) and Scheduling (the task the
// scheduler picks); the lemmas of KernelProperties carry the invariant
// Inv(View()) through each of them. The hardware is reduced to what the
// kernel writes to it: the words of the initial stack frames (ram), the
// sub-region fields of the MPU region attributes (regionAttr), the process
// stack pointer (psp) and the PendSV request bit.

module Kernel {
  import opened Machine
  import opened GetInput
  import opened MemoryManager
  import opened SramAccess
  import opened KernelState
  import opened Scheduling
  import opened KernelProperties
  import opened KernelScans

  /** `--p` on a uint32_t pointer: four bytes down, in uint32_t arithmetic. */
  function Down4(p: u32): (r: u32)
    ensures r == Trunc32(p - 4)
  {
    if p >= 4 then p - 4 else p + 0x1_0000_0000 - 4
  }

  /** The frame addresses below top written so far: the first k pushes. */
  function Pushes(top: u32, k: nat): (r: set<u32>)
    requires k <= 17
    ensures forall j :: 0 <= j < k ==> Slot(top, j) in r
  {
    set j | 0 <= j < k :: Slot(top, j)
  }

  /** Memory ram0 after the first k words of frame f are stored below top, one `*(--p) = w` each. */
  ghost function Written(ram0: map<u32, u32>, top: u32, f: seq<u32>, k: nat): map<u32, u32>
    requires k <= 17 == |f|
    decreases k
  {
    if k == 0 then ram0 else Written(ram0, top, f, k - 1)[Slot(top, k - 1) := f[k - 1]]
  }

  /** After k pushes the memory has gained exactly the first k frame addresses. */
  lemma {:induction false} WrittenKeys(ram0: map<u32, u32>, top: u32, f: seq<u32>, k: nat)
    requires k <= 17 == |f|
    ensures Written(ram0, top, f, k).Keys == ram0.Keys + Pushes(top, k)
    decreases k
  {
    if k == 0 {
      assert Pushes(top, 0) == {};
    } else {
      WrittenKeys(ram0, top, f, k - 1);
      PushesStep(top, k);
    }
  }

  /** The first k pushes are the first k - 1 and push k. */
  lemma PushesStep(top: u32, k: nat)
    requires 1 <= k <= 17
    ensures Pushes(top, k) == Pushes(top, k - 1) + {Slot(top, k - 1)}
  {
  }

  /** After k pushes the first k frame words are in place below top. */
  lemma {:induction false} WrittenWords(ram0: map<u32, u32>, top: u32, f: seq<u32>, k: nat)
    requires k <= 17 == |f|
    ensures forall j :: 0 <= j < k ==> Slot(top, j) in Written(ram0, top, f, k) && Written(ram0, top, f, k)[Slot(top, j)] == f[j]
    decreases k
  {
    if k > 0 {
      WrittenWords(ram0, top, f, k - 1);
      forall j | 0 <= j < k - 1
        ensures Slot(top, j) != Slot(top, k - 1)
      {
        SlotsDistinct(top, j, k - 1);
      }
    }
  }

  /** Pushing leaves every address outside the pushed words alone. */
  lemma {:induction false} WrittenElsewhere(ram0: map<u32, u32>, top: u32, f: seq<u32>, k: nat)
    requires k <= 17 == |f|
    ensures forall a :: a in ram0 && a !in Pushes(top, k) ==> a in Written(ram0, top, f, k) && Written(ram0, top, f, k)[a] == ram0[a]
    decreases k
  {
    if k > 0 {
      WrittenElsewhere(ram0, top, f, k - 1);
      assert Pushes(top, k - 1) <= Pushes(top, k);
    }
  }

  /** All seventeen pushes store the initial frame below top. */
  lemma WrittenFrame(ram0: map<u32, u32>, top: u32, pid: u32, k: nat)
    requires k == 17
    ensures FrameStored(Written(ram0, top, InitialFrame(pid), k), ram0, top, pid)
  {
    var f := InitialFrame(pid);
    var ram := Written(ram0, top, f, k);
    assert Pushes(top, k) == FrameAddresses(top);
    assert ram.Keys == ram0.Keys + FrameAddresses(top) by {
      WrittenKeys(ram0, top, f, k);
    }
    assert forall j :: 0 <= j < 17 ==> ram[Slot(top, j)] == f[j] by {
      WrittenWords(ram0, top, f, k);
    }
    assert forall a :: a in ram0 && a !in FrameAddresses(top) ==> ram[a] == ram0[a] by {
      WrittenElsewhere(ram0, top, f, k);
    }
  }

  /**
   * The seventeen `*(--p) = w` of createThread and restart, the words of
   * InitialFrame in push order: the frame a task seems to have left when
   * it was switched out, below the stack top. Returns the final p, the
   * task's saved stack pointer.
   */
  method PushInitialFrame(ram0: map<u32, u32>, top: u32, pid: u32) returns (ram: map<u32, u32>, p: u32)
    ensures p == Slot(top, 16) && FrameStored(ram, ram0, top, pid)
  {
    var frame := InitialFrame(pid);
    ram, p := ram0, top;
    var k := 0;
    while k < 17
      invariant k <= 17 && p == (if k == 0 then top else Slot(top, k - 1))
      invariant ram == Written(ram0, top, frame, k)
    {
      p := Down4(p);
      ram := ram[p := frame[k]];
      k := k + 1;
    }
    WrittenFrame(ram0, top, pid, k);
  }

  /** StringCopy of a task name into a tcb name field. */
  method CopyNameField(dst: seq<char>, src: seq<char>) returns (r: seq<char>)
    requires Nul in src && CLength(src) < |dst|
    ensures r == CopyName(dst, src)
  {
    var buffer := new char[|dst|](i requires 0 <= i < |dst| => dst[i]);
    StringCopy(src, buffer);
    r := buffer[..];
    var n := CLength(src);
    assert r == src[..n] + [Nul] + dst[n + 1..];
  }

  /** What putsUart0 prints of a buffer holding the digits d and then NUL: the digits. */
  lemma DigitsPrinted(s: seq<char>, d: seq<char>)
    requires |d| < |s| && s[|d|] == Nul && forall k :: 0 <= k < |d| ==> s[k] == d[k] && '0' <= d[k] <= '9'
    ensures Nul in s && CStr(s) == d
  {
    assert CLength(s) == |d|;
  }

  /** A uint16_t has at most five decimal digits. */
  lemma Digits16(n: u16)
    ensures |DecimalDigits(n)| <= 5
  {
    assert Pow10(5) == 100000;
    DigitsLength(n, 5);
  }

  /** Saving a stack pointer keeps what the scheduler looks at: the states and priorities. */
  lemma SchedulableKept(a: seq<Tcb>, b: seq<Tcb>)
    requires |a| == |b| && forall i :: 0 <= i < |a| ==> a[i].state == b[i].state && a[i].priority == b[i].priority
    ensures PriorityRunnable(a) ==> PriorityRunnable(b)
    ensures AnyReady(a) ==> AnyReady(b)
  {
    if PriorityRunnable(a) {
      var i :| 0 <= i < |a| && a[i].state == Ready && a[i].priority < NumPriorities;
      assert b[i].state == Ready && b[i].priority < NumPriorities;
    }
    if AnyReady(a) {
      var i :| 0 <= i < |a| && a[i].state == Ready;
      assert b[i].state == Ready;
    }
  }

  class Kernel {
    const tcb: array<Tcb>
    const mutexes: array<Mutex>
    const semaphores: array<Semaphore>
    var taskCurrent: u8
    var taskCount: u8
    var priorityScheduler: bool
    var priorityInheritance: bool
    var preemption: bool
    /** The static `task` of rtosScheduler: its last pick, 0xFF before the first. */
    var task: u8
    /** The static LastRanTask of rtosScheduler: the last task run at each priority level. */
    const lastRanTask: array<u8>
    const heap: Heap
    /** The SRAM words the kernel writes: the initial stack frames of the tasks. */
    var ram: map<u32, u32>
    /** The attribute words of MPU regions 2 .. 6, whose bits 8..15 applySramAccessMask sets. */
    var regionAttr: seq<u32>
    /** The process stack pointer. */
    var psp: u32
    /** NVIC_INT_CTRL_PEND_SV has been set: a task switch is requested. */
    var pendSvRequested: bool

    /** The kernel state the service calls act on. */
    function View(): Kv
      reads this`taskCurrent, this`taskCount, tcb, mutexes, semaphores
    {
      Kv(tcb[..], mutexes[..], semaphores[..], taskCurrent as nat, taskCount as nat)
    }

    /** The tables have their sizes. */
    ghost predicate Tables() {
      && tcb.Length == MaxTasks && mutexes.Length == MaxMutexes && semaphores.Length == MaxSemaphores
      && lastRanTask.Length == NumPriorities
    }

    ghost predicate Valid()
      reads this`regionAttr, this`taskCurrent, this`taskCount, tcb, mutexes, semaphores, heap, heap.allocation
    {
      Tables() && |regionAttr| == 5 && heap.Valid() && Inv(View())
    }

    /**
     * The zero-initialised globals: every table entry zero, taskCount and
     * taskCurrent 0, the priority scheduler on, no preemption, the static
     * `task` 0xFF and LastRanTask {0xFF, 0, ..., 0}, an empty heap.
     */
    constructor (regions: seq<u32>)
      requires |regions| == 5
      ensures Valid() && View() == Boot
      ensures priorityScheduler && !priorityInheritance && !preemption && task == 0xFF
      ensures lastRanTask[..] == [0xFF] + seq(NumPriorities - 1, _ => 0)
      ensures heap.View() == EmptyHeap && ram == map[] && regionAttr == regions && !pendSvRequested
      ensures fresh(tcb) && fresh(mutexes) && fresh(semaphores) && fresh(lastRanTask) && fresh(heap) && fresh(heap.allocation)
    {
      tcb := new Tcb[MaxTasks](_ => EmptyTcb);
      mutexes := new Mutex[MaxMutexes](_ => EmptyMutex);
      semaphores := new Semaphore[MaxSemaphores](_ => EmptySemaphore);
      taskCurrent, taskCount := 0, 0;
      priorityScheduler, priorityInheritance, preemption := true, false, false;
      task := 0xFF;
      lastRanTask := new u8[NumPriorities](i => if i == 0 then 0xFF else 0);
      heap := new Heap();
      ram, regionAttr, psp, pendSvRequested := map[], regions, 0, false;
      new;
      assert lastRanTask[..] == [0xFF] + seq(NumPriorities - 1, _ => 0);
      assert tcb[..] == Boot.tcb && mutexes[..] == Boot.mutexes && semaphores[..] == Boot.semaphores;
      BootInv();
    }

    /** initMutex: a mutex in the table is unlocked with owner 0; its queue stays. */
    method InitMutex(mutex: u8) returns (ok: bool)
      requires Valid()
      modifies mutexes
      ensures Valid()
      ensures ok <==> mutex as nat < MaxMutexes
      ensures ok ==> mutexes[..] == old(mutexes[..])[mutex := old(mutexes[mutex]).(lock := false, lockedBy := 0)]
      ensures !ok ==> mutexes[..] == old(mutexes[..])
    {
      ghost var v0 := View();
      ok := mutex as nat < MaxMutexes;
      if ok {
        mutexes[mutex] := mutexes[mutex].(lock := false, lockedBy := 0);
        assert MutexOk(View().mutexes[mutex], v0.taskCount);
        MutexQueuesKept(v0, View());
      }
    }

    /** initSemaphore: the count of a semaphore in the table is set; its queue stays. */
    method InitSemaphore(semaphore: u8, count: u8) returns (ok: bool)
      requires Valid()
      modifies semaphores
      ensures Valid()
      ensures ok <==> semaphore as nat < MaxSemaphores
      ensures ok ==> semaphores[..] == old(semaphores[..])[semaphore := old(semaphores[semaphore]).(count := count)]
      ensures !ok ==> semaphores[..] == old(semaphores[..])
    {
      ghost var v0 := View();
      ok := semaphore as nat < MaxSemaphores;
      if ok {
        semaphores[semaphore] := semaphores[semaphore].(count := count);
        assert SemaphoreOk(View().semaphores[semaphore], v0.taskCount);
        QueuedKept(v0, View());
      }
    }

    /** initRtos without the SysTick set-up: no tasks, every slot INVALID with pid 0. */
    method InitRtos()
      requires Valid() && QueuesEmpty(View())
      modifies this`taskCount, tcb
      ensures Valid() && View() == ClearTasks(old(View()))
    {
      ghost var v0 := View();
      taskCount := 0;
      for i := 0 to MaxTasks
        invariant forall j :: 0 <= j < i ==> tcb[j] == v0.tcb[j].(state := Invalid, pid := 0)
        invariant forall j :: i <= j < MaxTasks ==> tcb[j] == v0.tcb[j]
        invariant taskCount == 0
      {
        tcb[i] := tcb[i].(state := Invalid, pid := 0);
      }
      ghost var cleared := ClearTasks(v0);
      assert tcb[..] == cleared.tcb;
      assert mutexes[..] == cleared.mutexes && semaphores[..] == cleared.semaphores;
      assert View() == cleared;
      ClearTasksInv(v0);
    }

    // -------------------------------------------------------------------
    // rtosScheduler
    // -------------------------------------------------------------------

    /** What rtosScheduler needs to end with a task: a READY task of priority below 16, or any READY task. */
    ghost predicate Schedulable()
      reads this`priorityScheduler, tcb
    {
      tcb.Length == MaxTasks &&
      if priorityScheduler then PriorityRunnable(tcb[..]) else AnyReady(tcb[..])
    }

    /**
     * The pick t of rtosScheduler and the LastRanTask last it leaves, from
     * LastRanTask last0 and the previous pick task0: in priority mode the
     * pick of PriorityStep, recorded in LastRanTask at its level; in
     * round-robin mode the first READY slot after task0.
     */
    ghost predicate Picked(t: nat, last0: seq<u8>, last: seq<u8>, task0: nat)
      reads this`priorityScheduler, this`taskCount, tcb
    {
      && Slots(tcb[..], taskCount as nat) && |last0| == NumPriorities
      && if priorityScheduler then
           PriorityRunnable(tcb[..]) && (t, last) == PriorityStep(tcb[..], taskCount as nat, last0)
         else
           AnyReady(tcb[..]) && t == RoundRobinStep(tcb[..], task0) && last == last0
    }

    /**
     * rtosScheduler. In priority mode: the pick of PriorityStep, recorded
     * in LastRanTask at its level; in round-robin mode: the first READY
     * slot after the previous pick. Either way the pick becomes `task`.
     */
    method RtosScheduler() returns (t: u8)
      requires Valid() && Schedulable()
      modifies this`task, lastRanTask
      ensures Valid() && task == t
      ensures Picked(t as nat, old(lastRanTask[..]), lastRanTask[..], old(task) as nat)
    {
      if priorityScheduler {
        assert Slots(tcb[..], taskCount as nat);
        t := PriorityMode();
      } else {
        t := RoundRobinMode();
      }
    }

    /** The priority branch of rtosScheduler. */
    method PriorityMode() returns (t: u8)
      requires Tables() && Slots(tcb[..], taskCount as nat) && PriorityRunnable(tcb[..])
      modifies this`task, lastRanTask
      ensures task == t
      ensures (t as nat, lastRanTask[..]) == PriorityStep(tcb[..], taskCount as nat, old(lastRanTask[..]))
    {
      var highestPriority, first, pick := PriorityPick(tcb[..], taskCount as nat, task, lastRanTask[..]);
      task := first;
      if first != 0xFF {
        task := pick;
        lastRanTask[highestPriority] := pick;
      }
      t := task;
    }

    /** The round-robin branch of rtosScheduler. */
    method RoundRobinMode() returns (t: u8)
      requires Tables() && AnyReady(tcb[..])
      modifies this`task
      ensures task == t && t as nat == RoundRobinStep(tcb[..], old(task) as nat)
    {
      t := NextReady(tcb[..], task);
      task := t;
    }

    // -------------------------------------------------------------------
    // The timer and the service calls on the synchronisation primitives
    // -------------------------------------------------------------------

    /**
     * systickIsr: every DELAYED task below taskCount counts down and is
     * READY at zero; with preemption on, a task switch is requested.
     */
    method SystickIsr()
      requires Valid()
      modifies tcb, this`pendSvRequested
      ensures Valid() && View() == old(View()).(tcb := TickAll(old(tcb[..]), taskCount as nat))
      ensures pendSvRequested == (old(pendSvRequested) || preemption)
    {
      ghost var v0 := View();
      var i: u8 := 0;
      while i < taskCount
        invariant i <= taskCount
        invariant forall j :: 0 <= j < i ==> tcb[j] == Tick(v0.tcb[j])
        invariant forall j :: i as int <= j < MaxTasks ==> tcb[j] == v0.tcb[j]
        invariant pendSvRequested == old(pendSvRequested)
      {
        if tcb[i].state == Delayed {
          var left := Trunc32(tcb[i].ticks as int - 1);
          tcb[i] := tcb[i].(ticks := left);
          if left == 0 {
            tcb[i] := tcb[i].(state := Ready);
          }
        }
        i := i + 1;
      }
      assert tcb[..] == TickAll(v0.tcb, v0.taskCount);
      TickAllInv(v0);
      if preemption {
        pendSvRequested := true;
      }
    }

    /** Case 1, yield: request a task switch. */
    method Yield()
      modifies this`pendSvRequested
      ensures pendSvRequested
    {
      pendSvRequested := true;
    }

    /** Case 2, sleep: the caller is DELAYED for ticks ticks, and a task switch is requested. */
    method SleepCall(ticks: u32)
      requires Valid() && Running(View())
      modifies tcb, this`pendSvRequested
      ensures Valid() && View() == Sleep(old(View()), ticks) && pendSvRequested
    {
      ghost var v0 := View();
      tcb[taskCurrent] := tcb[taskCurrent].(state := Delayed, ticks := ticks);
      assert tcb[..] == Sleep(v0, ticks).tcb;
      SleepInv(v0, ticks);
      pendSvRequested := true;
    }

    /** Case 3, lock; a task that blocks requests a task switch. */
    method LockCall(mutex: u8)
      requires Valid() && Running(View()) && mutex as nat < MaxMutexes && LockCanQueue(View(), mutex as nat)
      modifies tcb, mutexes, this`pendSvRequested
      ensures Valid() && View() == Lock(old(View()), mutex as nat)
      ensures pendSvRequested == (old(pendSvRequested) || (old(mutexes[mutex].lock) && old(mutexes[mutex].lockedBy) != taskCurrent))
    {
      ghost var v0 := View();
      var m := mutexes[mutex];
      if !m.lock {
        mutexes[mutex] := m.(lock := true, lockedBy := taskCurrent);
        tcb[mutex] := tcb[mutex].(mutex := mutex);
      } else if m.lockedBy != taskCurrent {
        tcb[taskCurrent] := tcb[taskCurrent].(state := BlockedMutex);
        mutexes[mutex] := m.(processQueue := m.processQueue[m.queueSize := taskCurrent], queueSize := m.queueSize + 1);
        tcb[mutex] := tcb[mutex].(mutex := mutex);
        pendSvRequested := true;
      }
      ghost var r := Lock(v0, mutex as nat);
      assert tcb[..] == r.tcb && mutexes[..] == r.mutexes;
      LockInv(v0, mutex as nat);
    }

    /** Case 4, unlock: the owner's unlock hands the mutex to its first waiter, locked. */
    method UnlockCall(mutex: u8)
      requires Valid() && mutex as nat < MaxMutexes
      modifies tcb, mutexes
      ensures Valid() && View() == Unlock(old(View()), mutex as nat)
    {
      ghost var v0 := View();
      var m := mutexes[mutex];
      if m.lockedBy == taskCurrent {
        m := m.(lock := false);
        if m.queueSize > 0 {
          var nextProcess := m.processQueue[0];
          tcb[nextProcess] := tcb[nextProcess].(state := Ready);
          var q := ShiftDown(m.processQueue, 0, m.queueSize as nat);
          m := Mutex(true, m.queueSize - 1, q, nextProcess);
        }
        mutexes[mutex] := m;
      }
      ghost var r := Unlock(v0, mutex as nat);
      assert tcb[..] == r.tcb && mutexes[..] == r.mutexes;
      UnlockInv(v0, mutex as nat);
    }

    /** Case 5, wait: take a unit, or queue, block and request a task switch. */
    method WaitCall(sema: u8)
      requires Valid() && Running(View()) && sema as nat < MaxSemaphores && WaitCanQueue(View(), sema as nat)
      modifies tcb, semaphores, this`pendSvRequested
      ensures Valid() && View() == Wait(old(View()), sema as nat)
      ensures pendSvRequested == (old(pendSvRequested) || old(semaphores[sema].count) == 0)
    {
      ghost var v0 := View();
      var s := semaphores[sema];
      if s.count > 0 {
        semaphores[sema] := s.(count := s.count - 1);
      } else {
        semaphores[sema] := s.(processQueue := s.processQueue[s.queueSize := taskCurrent], queueSize := s.queueSize + 1);
        tcb[taskCurrent] := tcb[taskCurrent].(state := BlockedSemaphore, semaphore := sema);
        pendSvRequested := true;
      }
      ghost var r := Wait(v0, sema as nat);
      assert tcb[..] == r.tcb && semaphores[..] == r.semaphores;
      WaitInv(v0, sema as nat);
    }

    /** Case 6, post: the signalling, and when a task was woken, s is recorded in tcb slot s. */
    method PostCall(sema: u8)
      requires Valid() && sema as nat < MaxSemaphores
      modifies tcb, semaphores
      ensures Valid() && View() == Post(old(View()), sema as nat)
    {
      ghost var v0 := View();
      var waiting := semaphores[sema].queueSize > 0;
      SignalStep(sema);
      if waiting {
        tcb[sema] := tcb[sema].(semaphore := sema);
      }
      ghost var r := Post(v0, sema as nat);
      assert tcb[..] == r.tcb;
      PostInv(v0, sema as nat);
    }

    /** Cases 8, 9 and 10: the shell's switches, a C bool taken from a word. */
    method SetScheduler(arg: u32)
      modifies this`priorityScheduler
      ensures priorityScheduler <==> arg != 0
    {
      priorityScheduler := arg != 0;
    }

    method SetPreemption(arg: u32)
      modifies this`preemption
      ensures preemption <==> arg != 0
    {
      preemption := arg != 0;
    }

    method SetInheritance(arg: u32)
      modifies this`priorityInheritance
      ensures priorityInheritance <==> arg != 0
    {
      priorityInheritance := arg != 0;
    }

    // -------------------------------------------------------------------
    // Task switching
    // -------------------------------------------------------------------

    /**
     * Case 0, and the tail of pendSvIsr: the scheduler's pick becomes
     * taskCurrent, its SRAM mask goes to the MPU and its saved stack
     * pointer to PSP.
     */
    method SwitchTask()
      requires Valid() && Schedulable()
      modifies this`task, lastRanTask, this`taskCurrent, this`regionAttr, this`psp
      ensures Valid() && Running(View()) && taskCurrent == task
      ensures Picked(taskCurrent as nat, old(lastRanTask[..]), lastRanTask[..], old(task) as nat)
      ensures psp == tcb[taskCurrent].sp && MaskApplied(regionAttr, tcb[taskCurrent].srd, old(regionAttr))
    {
      ghost var v0 := View();
      var t := RtosScheduler();
      taskCurrent := t;
      regionAttr := ApplySramAccessMask(tcb[taskCurrent].srd, regionAttr);
      psp := tcb[taskCurrent].sp;
      CurrentMoved(v0, t as nat);
    }

    /**
     * pendSvIsr without the fault report and the register pushes and pops:
     * the outgoing task's stack pointer is saved from PSP, then the switch.
     */
    method PendSvIsr()
      requires Valid() && Schedulable()
      modifies tcb, this`task, lastRanTask, this`taskCurrent, this`regionAttr, this`psp
      ensures Valid() && Running(View()) && taskCurrent == task
      ensures tcb[..] == old(tcb[..])[old(taskCurrent) := old(tcb[taskCurrent]).(sp := old(psp))]
      ensures Schedulable()
      ensures Picked(taskCurrent as nat, old(lastRanTask[..]), lastRanTask[..], old(task) as nat)
      ensures psp == tcb[taskCurrent].sp && MaskApplied(regionAttr, tcb[taskCurrent].srd, old(regionAttr))
    {
      ghost var v0 := View();
      tcb[taskCurrent] := tcb[taskCurrent].(sp := psp);
      SchedulableKept(v0.tcb, tcb[..]);
      QueuedKept(v0, View());
      SwitchTask();
    }

    // -------------------------------------------------------------------
    // Tasks: createThread, KillThread, restart, pidof and malloc
    // -------------------------------------------------------------------

    /**
     * createThread. Some(false): the table is full or fn is taken, and
     * nothing changes. Otherwise the stack is allocated, and either the
     * SRAM window of that allocation faults (None) or the task takes slot
     * taskCount with its initial frame pushed (Some(true)).
     */
    method CreateThread(fn: u32, name: seq<char>, priority: u8, stackBytes: u32) returns (r: Option<bool>)
      requires Valid() && Nul in name && CLength(name) < NameLength
      modifies tcb, this`taskCount, this`ram, heap`memUse, heap`count, heap.allocation
      ensures Valid()
      ensures r == Some(false) <==> old(taskCount) as nat >= MaxTasks || PidTaken(old(tcb[..]), fn)
      ensures r == Some(false) ==> View() == old(View()) && heap.View() == old(heap.View()) && ram == old(ram)
      ensures r != Some(false) ==>
        old(taskCount) as nat < MaxTasks &&
        Spawned(old(View()), View(), old(heap.View()), heap.View(), old(ram), ram, fn, name, priority, stackBytes, r.Some?)
    {
      if taskCount as nat >= MaxTasks {
        return Some(false);
      }
      var found := PidInUse(tcb[..], fn);
      if found {
        return Some(false);
      }
      var done := Spawn(fn, name, priority, stackBytes);
      r := if done then Some(true) else None;
    }

    /** createThread past its checks: the stack, its SRAM window, and the new task. */
    method Spawn(fn: u32, name: seq<char>, priority: u8, stackBytes: u32) returns (done: bool)
      requires Valid() && taskCount as nat < MaxTasks && Nul in name && CLength(name) < NameLength
      modifies tcb, this`taskCount, this`ram, heap`memUse, heap`count, heap.allocation
      ensures Valid()
      ensures Spawned(old(View()), View(), old(heap.View()), heap.View(), old(ram), ram, fn, name, priority, stackBytes, done)
    {
      var initialAlloc := heap.MallocFromHeap(stackBytes);
      var p := StackTop(initialAlloc, StackRoundUp(stackBytes));
      var srdbits := AddSramAccessWindow(NoAccess, initialAlloc, stackBytes);
      done := srdbits.Some?;
      if done {
        FillSlot(fn, name, priority, p, initialAlloc, stackBytes, srdbits.value);
      }
    }

    /** The first free slot, taskCount, takes the new task, READY, and its frame is pushed below top. */
    method FillSlot(fn: u32, name: seq<char>, priority: u8, top: u32, base: u32, stackBytes: u32, srd: Mask)
      requires Tables() && Inv(View()) && taskCount as nat < MaxTasks && Nul in name && CLength(name) < NameLength
      modifies tcb, this`taskCount, this`ram
      ensures Inv(View())
      ensures View() == Create(old(View()), fn, name, priority, top, base, stackBytes, srd)
      ensures FrameStored(ram, old(ram), top, fn)
    {
      ghost var v0 := View();
      var i := FirstFreeSlot(tcb[..], taskCount as nat);
      var field := CopyNameField(tcb[i].name, name);
      tcb[i] := tcb[i].(state := Ready, pid := fn, sp := top, spInit := top, priority := priority, name := field,
                        srd := srd, baseAddress := base, threadSize := stackBytes);
      var p;
      ram, p := PushInitialFrame(ram, top, fn);
      tcb[i] := tcb[i].(sp := p);
      taskCount := taskCount + 1;
      ghost var created := Create(v0, fn, name, priority, top, base, stackBytes, srd);
      assert tcb[..] == created.tcb;
      CreateInv(v0, fn, name, priority, top, base, stackBytes, srd);
    }

    /**
     * KillThread for the argument read as a pid and as a name: the first
     * match that is not STOPPED gives back its stack and its allocation and
     * is torn down; with no such match nothing changes.
     */
    method KillThread(pid: u32, name: seq<char>)
      requires Valid() && Nul in name
      requires Killable(tcb[..], taskCount as nat, pid, name)
      modifies tcb, mutexes, semaphores, heap`memUse, heap`count, heap.allocation
      ensures Valid()
      ensures var target := KillTarget(old(tcb[..]), pid, name, 0);
        && (target.None? ==> View() == old(View()) && heap.View() == old(heap.View()))
        && (target.Some? ==> Killed(old(View()), View(), old(heap.View()), heap.View(), target.value))
    {
      ghost var v0 := View();
      var target := FindKillTarget(tcb[..], pid, name);
      if target.Some? {
        var task := target.value;
        heap.FreeAndCompact(tcb[task].baseAddress);
        heap.FreeAndCompact(tcb[task].allocation);
        LeaveQueueStep(task);
        ReleaseStep(task);
        tcb[task] := tcb[task].(srd := NoAccess, state := Stopped);
        ghost var torn := Teardown(v0, task);
        assert tcb[..] == torn.tcb;
        TeardownInv(v0, task);
      }
    }

    /** The first step of the teardown: a blocked task leaves its queue, or signals its semaphore. */
    method LeaveQueueStep(task: nat)
      requires Tables() && Inv(View()) && task < taskCount as nat
      modifies tcb, mutexes, semaphores
      ensures View() == LeaveQueue(old(View()), task)
    {
      var t := tcb[task];
      if t.state == BlockedMutex {
        UnqueueStep(task);
      } else if t.state == BlockedSemaphore {
        SignalStep(t.semaphore);
      }
    }

    /** The mutex branch of KillThread: find the task in the queue of its mutex and shift the rest down. */
    method UnqueueStep(task: nat)
      requires Tables() && Inv(View()) && task < taskCount as nat && tcb[task].state == BlockedMutex
      modifies mutexes
      ensures View() == Unqueue(old(View()), task)
    {
      ghost var v0 := View();
      var mx := tcb[task].mutex;
      var m := mutexes[mx];
      var i := FindInQueue(m.processQueue, m.queueSize as nat, task);
      assert task in Waiters(m.processQueue, m.queueSize as nat);
      var q := ShiftDown(m.processQueue, i, m.queueSize as nat);
      mutexes[mx] := m.(processQueue := q, queueSize := Trunc8(m.queueSize as int - 1));
      ghost var r := Unqueue(v0, task);
      assert mutexes[..] == r.mutexes;
    }

    /** The signalling of post and of KillThread: a unit more, and a waiter, if any, woken to take it. */
    method SignalStep(sema: u8)
      requires Tables() && Shape(View()) && sema as nat < MaxSemaphores
      modifies tcb, semaphores
      ensures View() == Signal(old(View()), sema as nat)
    {
      ghost var v0 := View();
      var s := semaphores[sema];
      s := s.(count := Trunc8(s.count as int + 1));
      if s.queueSize > 0 {
        var nextProcess := s.processQueue[0];
        tcb[nextProcess] := tcb[nextProcess].(state := Ready);
        var q := ShiftDown(s.processQueue, 0, s.queueSize as nat);
        s := Semaphore(Trunc8(s.count as int - 1), s.queueSize - 1, q);
      }
      semaphores[sema] := s;
      ghost var r := Signal(v0, sema as nat);
      assert tcb[..] == r.tcb && semaphores[..] == r.semaphores;
    }

    /** The second step of the teardown: a mutex the task holds passes to its first waiter, unlocked. */
    method ReleaseStep(task: nat)
      requires Tables() && Shape(View()) && task < taskCount as nat
      modifies tcb, mutexes
      ensures View() == KernelState.Release(old(View()), task)
    {
      ghost var v0 := View();
      var mx := tcb[task].mutex;
      var m := mutexes[mx];
      if m.lockedBy as nat == task {
        m := m.(lock := false);
        if m.queueSize > 0 {
          var nextProcess := m.processQueue[0];
          tcb[nextProcess] := tcb[nextProcess].(state := Ready);
          var q := ShiftDown(m.processQueue, 0, m.queueSize as nat);
          m := Mutex(false, m.queueSize - 1, q, nextProcess);
        }
        mutexes[mx] := m;
        ghost var r := HandOff(v0, mx as nat, false);
        assert tcb[..] == r.tcb && mutexes[..] == r.mutexes;
      }
    }

    /**
     * Case 14, restart, for the argument read as a pid and as a name: only
     * a first match that is STOPPED is restarted, on a new stack of its old
     * size; Some(false) when there is none, None when the SRAM window faults.
     */
    method RestartCall(pid: u32, name: seq<char>) returns (r: Option<bool>)
      requires Valid() && Nul in name
      modifies tcb, this`ram, heap`memUse, heap`count, heap.allocation
      ensures Valid()
      ensures var m := KernelState.FirstMatch(old(tcb[..]), pid, name, 0);
        && (r == Some(false) <==> m.None? || old(tcb[m.value].state) != Stopped)
        && (r == Some(false) ==> View() == old(View()) && heap.View() == old(heap.View()) && ram == old(ram))
        && (r != Some(false) ==> Revived(old(View()), View(), old(heap.View()), heap.View(), old(ram), ram, m.value, r.Some?))
    {
      var target := FindRestartTarget(tcb[..], pid, name);
      if target.None? || tcb[target.value].state != Stopped {
        return Some(false);
      }
      var done := Revive(target.value);
      r := if done then Some(true) else None;
    }

    /** Restart of a STOPPED task: a stack of its old size, its SRAM window, and the task READY again. */
    method Revive(task: nat) returns (done: bool)
      requires Valid() && task < MaxTasks && tcb[task].state == Stopped
      modifies tcb, this`ram, heap`memUse, heap`count, heap.allocation
      ensures Valid()
      ensures Revived(old(View()), View(), old(heap.View()), heap.View(), old(ram), ram, task, done)
    {
      var size := tcb[task].threadSize;
      var newAllocation := heap.MallocFromHeap(size);
      var p := StackTop(newAllocation, StackRoundUp(size));
      var srd := AddSramAccessWindow(tcb[task].srd, newAllocation, size);
      done := srd.Some?;
      if done {
        RefillSlot(task, p, newAllocation, srd.value);
      }
    }

    /** The STOPPED task gets the new stack and window, its frame is pushed below top, and it is READY. */
    method RefillSlot(task: nat, top: u32, base: u32, srd: Mask)
      requires Tables() && Inv(View()) && task < MaxTasks && tcb[task].state == Stopped
      modifies tcb, this`ram
      ensures Inv(View())
      ensures View() == Restart(old(View()), task, top, base, srd)
      ensures FrameStored(ram, old(ram), top, old(tcb[task].pid))
    {
      ghost var v0 := View();
      tcb[task] := tcb[task].(sp := top, spInit := top, baseAddress := base, ticks := 0, srd := srd);
      var p;
      ram, p := PushInitialFrame(ram, top, tcb[task].pid);
      tcb[task] := tcb[task].(sp := p, state := Ready);
      ghost var restarted := Restart(v0, task, top, base, srd);
      assert tcb[..] == restarted.tcb;
      RestartInv(v0, task, top, base, srd);
    }

    /**
     * Case 11, pidof: the text printed for the first task of that name,
     * its pid as a uint16_t in decimal; when there is none the caller's R0
     * is set to 0 (found is false) and "PID not found." is printed.
     */
    method PidOf(name: seq<char>) returns (found: bool, text: seq<char>)
      requires Valid() && Nul in name
      ensures found <==> NameMatch(tcb[..], name, 0).Some?
      ensures !found ==> text == "PID not found.\n"
      ensures found ==> text == "PID: " + DecimalDigits(Trunc16(tcb[NameMatch(tcb[..], name, 0).value].pid)) + "\n"
    {
      var m := FindName(tcb[..], name);
      if m.None? {
        return false, "PID not found.\n";
      }
      var pidValue := Trunc16(tcb[m.value].pid);
      var str := new char[15];
      Digits16(pidValue);
      IntToStr(pidValue, str);
      DigitsPrinted(str[..], DecimalDigits(pidValue));
      return true, "PID: " + CStr(str[..]) + "\n";
    }

    /**
     * Case 7, malloc for the caller: a block of the uint16_t size, recorded
     * as its Allocation, with its SRAM window opened on the caller's mask
     * and that mask applied; the address is returned in R0. None: the
     * window faults.
     */
    method MallocCall(arg: u32) returns (r: Option<u32>)
      requires Valid() && Running(View())
      modifies tcb, heap`memUse, heap`count, heap.allocation, this`regionAttr
      ensures Valid()
      ensures var (h, a) := Malloc(old(heap.View()), Trunc16(arg));
        var w := AddWindow(old(tcb[taskCurrent].srd), a, Trunc16(arg));
        && heap.View() == h && (r.None? <==> w.None?)
        && (r.None? ==> View() == old(View()) && regionAttr == old(regionAttr))
        && (r.Some? ==> r.value == a && View() == Granted(old(View()), a, w.value) && MaskApplied(regionAttr, w.value, old(regionAttr)))
    {
      ghost var v0 := View();
      var size := Trunc16(arg);
      var address := heap.MallocFromHeap(size);
      var srd := AddSramAccessWindow(tcb[taskCurrent].srd, address, size);
      if srd.None? {
        return None;
      }
      tcb[taskCurrent] := tcb[taskCurrent].(allocation := address, srd := srd.value);
      regionAttr := ApplySramAccessMask(srd.value, regionAttr);
      ghost var granted := Granted(v0, address, srd.value);
      assert tcb[..] == granted.tcb;
      GrantedInv(v0, address, srd.value);
      return Some(address);
    }
  }

  /** Moving taskCurrent to a live slot keeps the invariant. */
  lemma CurrentMoved(v: Kv, c: nat)
    requires Inv(v) && c < v.taskCount
    ensures Inv(v.(taskCurrent := c)) && Running(v.(taskCurrent := c))
  {
    var r := v.(taskCurrent := c);
    assert forall m :: 0 <= m < MaxMutexes ==> MutexOk(r.mutexes[m], r.taskCount);
    assert forall s :: 0 <= s < MaxSemaphores ==> SemaphoreOk(r.semaphores[s], r.taskCount);
  }

  /** The slot KillThread would tear down, if any, is live: what the teardown relies on. */
  ghost predicate Killable(tcb: seq<Tcb>, count: nat, pid: u32, name: seq<char>) {
    && Nul in name && (forall j :: 0 <= j < |tcb| ==> Nul in tcb[j].name)
    && (KillTarget(tcb, pid, name, 0).Some? ==> KillTarget(tcb, pid, name, 0).value < count)
  }

  /**
   * The state after createThread went past its checks: the heap is that of
   * mallocFromHeap; when done, slot taskCount holds the new task with the
   * window opened on a no-access mask and its frame pushed below the stack
   * top; when not (the window faults), the tables and memory are as before.
   */
  ghost predicate Spawned(v: Kv, v': Kv, h0: HeapView, h: HeapView, ram0: map<u32, u32>, ram: map<u32, u32>,
                          fn: u32, name: seq<char>, priority: u8, stackBytes: u32, done: bool)
    requires Shape(v) && v.taskCount < MaxTasks && Nul in name && CLength(name) < NameLength && WellFormed(h0)
  {
    var (h1, base) := Malloc(h0, stackBytes);
    var top := StackTop(base, StackRoundUp(stackBytes));
    var w := AddWindow(NoAccess, base, stackBytes);
    && h == h1 && (done <==> w.Some?)
    && (!done ==> v' == v && ram == ram0)
    && (done ==> v' == Create(v, fn, name, priority, top, base, stackBytes, w.value) && FrameStored(ram, ram0, top, fn))
  }

  /**
   * The state after KillThread tore down task: the stack and the
   * allocation freed, in that order, and the teardown of the tables.
   */
  ghost predicate Killed(v: Kv, v': Kv, h0: HeapView, h: HeapView, task: nat)
    requires Inv(v) && task < v.taskCount && WellFormed(h0)
  {
    v' == Teardown(v, task) && h == FreeCompacting(FreeCompacting(h0, v.tcb[task].baseAddress), v.tcb[task].allocation)
  }

  /**
   * The state after restart found a STOPPED task: the heap is that of
   * mallocFromHeap for its old size; when done, the task has the new stack,
   * the window opened on its mask and its frame pushed; when not (the
   * window faults), the tables and memory are as before.
   */
  ghost predicate Revived(v: Kv, v': Kv, h0: HeapView, h: HeapView, ram0: map<u32, u32>, ram: map<u32, u32>, task: nat, done: bool)
    requires Shape(v) && task < MaxTasks && v.tcb[task].state == Stopped && WellFormed(h0)
  {
    var t := v.tcb[task];
    var (h1, base) := Malloc(h0, t.threadSize);
    var top := StackTop(base, StackRoundUp(t.threadSize));
    var w := AddWindow(t.srd, base, t.threadSize);
    && h == h1 && (done <==> w.Some?)
    && (!done ==> v' == v && ram == ram0)
    && (done ==> v' == Restart(v, task, top, base, w.value) && FrameStored(ram, ram0, top, t.pid))
  }

  /**
   * createThread as written adds RoundUp(stackBytes) to the block it was
   * given: for a request below 512 bytes served by a 512-byte block that is
   * 1024, and the first stack pointer lies past the end of the block.
   */
  lemma StackTopOverrunsBlock(m: Mask, stackBytes: u32)
    requires 0 < stackBytes < 512
    requires MallocPlan(m, stackBytes).Some? && MallocPlan(m, stackBytes).value.first < SmallBlocks
    ensures var g := MallocPlan(m, stackBytes).value;
      StackTop(g.address, RoundUp(stackBytes)) == g.address + 1020
      && StackTop(g.address, RoundUp(stackBytes)) >= BlockAddress(g.first + g.blocks)
  {
  }

  /**
   * With StackRoundUp the first stack pointer of every granted stack lies
   * inside the blocks the allocator took for it (for requests whose block
   * count fits the uint8_t of mallocFromHeap).
   */
  lemma StackTopInGrant(m: Mask, stackBytes: u32)
    requires MallocPlan(m, stackBytes).Some? && stackBytes + 1023 < 256 * 1024
    ensures var g := MallocPlan(m, stackBytes).value; var top := StackTop(g.address, StackRoundUp(stackBytes));
      g.address < top && top + 4 <= BlockAddress(g.first + g.blocks)
  {
  }

  /**
   * initSemaphore as written: the check's result is returned, but the
   * count is stored into entry `semaphore` whatever it said. `area` is the
   * semaphore table followed by the memory after it, seen as more records.
   */
  function InitSemaphoreAsWritten(area: seq<Semaphore>, semaphore: u8, count: u8): (r: (bool, seq<Semaphore>))
    requires semaphore as nat < |area|
    ensures |r.1| == |area|
  {
    (semaphore as nat < MaxSemaphores, area[semaphore := area[semaphore].(count := count)])
  }

  /** Semaphore 3 fails the check, and the store still lands past the table. */
  lemma InitSemaphoreStoresPastTable(area: seq<Semaphore>, count: u8)
    requires |area| > MaxSemaphores && area[MaxSemaphores].count != count
    ensures var (ok, r) := InitSemaphoreAsWritten(area, MaxSemaphores as u8, count);
      !ok && r[..MaxSemaphores] == area[..MaxSemaphores] && r[MaxSemaphores] != area[MaxSemaphores]
  {
  }

  /**
   * The two loops of the priority mode on the table's contents: the level
   * the first loop ends on, the slot it leaves in `task`, and the pick of
   * the second loop, which is the pick of PriorityStep.
   */
  method PriorityPick(tcb: seq<Tcb>, count: nat, task0: u8, last: seq<u8>) returns (hp: nat, first: u8, pick: u8)
    requires Slots(tcb, count) && PriorityRunnable(tcb) && |last| == NumPriorities
    ensures hp < NumPriorities && first != 0xFF
    ensures (pick as nat, last[hp := pick]) == PriorityStep(tcb, count, last)
  {
    hp, first := FirstLoop(tcb, count, task0);
    // The guard `task != 0xFF` before the second loop always holds (FirstLoop), so that loop always runs.
    pick := SecondLoop(tcb, count, last, hp);
    PickIsStep(tcb, count, last, hp, pick);
  }

  /** The second loop of the priority mode, on the level the first loop ended on and its LastRanTask entry. */
  method SecondLoop(tcb: seq<Tcb>, count: nat, last: seq<u8>, hp: nat) returns (pick: u8)
    requires Slots(tcb, count) && PriorityRunnable(tcb) && |last| == NumPriorities
    requires hp == TopLevel(tcb, count) && hp < NumPriorities
    requires 1 <= count <= |tcb| == MaxTasks && AnyEligible(LevelFlags(tcb, count, hp))
    ensures pick as nat == Pick(LevelFlags(tcb, count, hp), Reduce(last[hp] as nat + 1, count))
  {
    pick := ScanLevel(tcb, count, hp, last[hp]);
  }

  /** The first loop of the priority mode on the live table: it ends on TopLevel, with a task found at that level. */
  method FirstLoop(tcb: seq<Tcb>, count: nat, task0: u8) returns (hp: nat, first: u8)
    requires Slots(tcb, count) && PriorityRunnable(tcb)
    ensures hp == TopLevel(tcb, count) && hp < NumPriorities && first != 0xFF
    ensures 1 <= count <= |tcb| == MaxTasks && AnyEligible(LevelFlags(tcb, count, hp))
  {
    hp, first := HighestReady(tcb, task0);
    FirstLoopFacts(tcb, count, task0, hp, first);
  }

  /** What the first loop of the priority mode leaves is what the second loop needs. */
  lemma FirstLoopFacts(tcb: seq<Tcb>, count: nat, task0: u8, hp: nat, first: u8)
    requires Slots(tcb, count) && PriorityRunnable(tcb)
    requires (hp, first as nat) == Highest(tcb, |tcb|, task0 as nat)
    ensures hp == TopLevel(tcb, count) && hp < NumPriorities && first != 0xFF
    ensures 1 <= count <= |tcb| == MaxTasks && AnyEligible(LevelFlags(tcb, count, hp))
  {
    HighestIsTop(tcb, count, task0 as nat, hp, first as nat);
  }

  /** A pick of the second loop, recorded in LastRanTask, is the step of the priority mode. */
  lemma PickIsStep(tcb: seq<Tcb>, count: nat, last: seq<u8>, hp: nat, pick: u8)
    requires Slots(tcb, count) && PriorityRunnable(tcb) && |last| == NumPriorities && hp == TopLevel(tcb, count)
    requires pick as nat == Pick(LevelFlags(tcb, count, hp), Reduce(last[hp] as nat + 1, count))
    ensures (pick as nat, last[hp := pick]) == PriorityStep(tcb, count, last)
  {
    PriorityStepIs(tcb, count, last, hp);
  }

  /**
   * The first loop of the priority mode: the best priority of a READY task
   * (16 when there is none) and the first slot holding a READY task of
   * that priority (`task` unchanged when there is none).
   */
  method HighestReady(tcb: seq<Tcb>, task0: u8) returns (highestPriority: nat, task: u8)
    requires |tcb| == MaxTasks
    ensures (highestPriority, task as nat) == Highest(tcb, |tcb|, task0 as nat)
  {
    highestPriority, task := NumPriorities, task0;
    var i := 0;
    while i < MaxTasks
      invariant 0 <= i <= MaxTasks
      invariant (highestPriority, task as nat) == Highest(tcb, i, task0 as nat)
    {
      if tcb[i].state == Ready && tcb[i].priority as nat < highestPriority {
        highestPriority := tcb[i].priority as nat;
        task := i as u8;
      }
      i := i + 1;
    }
  }

  /**
   * The second loop of the priority mode: from `(LastRanTask[hp] + 1) %
   * taskCount`, going round the live slots, the first READY task of
   * priority hp.
   */
  method ScanLevel(tcb: seq<Tcb>, count: nat, hp: nat, last: u8) returns (pick: u8)
    requires 1 <= count <= |tcb| == MaxTasks && AnyEligible(LevelFlags(tcb, count, hp))
    ensures pick as nat == Pick(LevelFlags(tcb, count, hp), Reduce(last as nat + 1, count))
  {
    ghost var flags := LevelFlags(tcb, count, hp);
    var lastScheduledTask := Remainder(last as nat + 1, count);
    ghost var s := lastScheduledTask;
    ghost var d := OffsetTo(s, Pick(flags, s), count);
    PickFirst(flags, s);
    var j := 0;
    while j < count
      invariant 0 <= j <= d
      invariant Missed(flags, s, j)
    {
      var taskIndex := WrapIndex(lastScheduledTask, j, count);
      if tcb[taskIndex].state == Ready && tcb[taskIndex].priority as nat == hp {
        FirstHit(flags, s, j);
        return taskIndex as u8;
      }
      MissedStep(flags, s, j);
      j := j + 1;
    }
    assert false;
  }

  /** The round-robin loop: `task++` on a uint8_t, wrapping at MAX_TASKS, until a READY slot. */
  method NextReady(tcb: seq<Tcb>, task0: u8) returns (task: u8)
    requires |tcb| == MaxTasks && AnyReady(tcb)
    ensures task as nat == RoundRobinStep(tcb, task0 as nat)
  {
    ghost var flags := ReadyFlags(tcb, MaxTasks);
    ReadyWitness(tcb);
    ghost var s := if task0 as nat + 1 < MaxTasks then task0 as nat + 1 else 0;
    ghost var d := OffsetTo(s, Pick(flags, s), MaxTasks);
    PickFirst(flags, s);
    task := task0;
    var ok := false;
    ghost var k: nat := 0;
    while !ok
      invariant k <= d + 1
      invariant k == 0 ==> !ok && task == task0
      invariant k > 0 ==> task as nat == At(s, k - 1, MaxTasks) && (ok <==> flags[task])
      invariant forall j :: 0 <= j < k - 1 ==> !flags[At(s, j, MaxTasks)]
      invariant !ok ==> k <= d
      decreases d + 1 - k
    {
      task := Trunc8(task as int + 1);
      if task as nat >= MaxTasks {
        task := 0;
      }
      ok := tcb[task].state == Ready;
      k := k + 1;
    }
    FirstHit(flags, s, k - 1);
  }

  /** The scan from s has passed offsets 0 .. j-1 without an eligible slot. */
  ghost predicate Missed(ok: seq<bool>, s: nat, j: nat)
    requires s < |ok| && j <= |ok|
  {
    forall k :: 0 <= k < j ==> !ok[At(s, k, |ok|)]
  }

  lemma MissedStep(ok: seq<bool>, s: nat, j: nat)
    requires s < |ok| && j < |ok| && Missed(ok, s, j) && !ok[At(s, j, |ok|)]
    ensures Missed(ok, s, j + 1)
  {
  }

  /** `a % n` of the C code, which Reduce computes by subtraction. */
  method Remainder(a: nat, n: nat) returns (r: nat)
    requires n >= 1
    ensures r == Reduce(a, n)
  {
    r := a % n;
    ReduceMod(a, n);
  }

  /** `(s + j) % n` of the C code for s, j < n: the slot j places after s, wrapping round. */
  method WrapIndex(s: nat, j: nat, n: nat) returns (r: nat)
    requires s < n && j < n
    ensures r == At(s, j, n)
  {
    r := (s + j) % n;
    ModAt(s, j, n);
  }
}
