// Properties of the kernel transitions of module KernelState: each service
// call keeps the kernel invariant, and the behaviours src/kernel.c shows
// (hand-off of a mutex, the timer countdown, the stack frame, the quirks of
// the mutex and semaphore code) stated as lemmas.

module KernelProperties {
  import opened Machine
  import opened GetInput
  import opened KernelState

  // ---------------------------------------------------------------------
  // The invariant
  // ---------------------------------------------------------------------

  /** The zeroed tables satisfy the invariant with no task. */
  lemma BootInv()
    ensures Inv(Boot) && Boot.taskCount == 0
  {
    assert EmptyTcb.name[0] == Nul;
  }

  /** With a single mutex every tcb records mutex 0, so every task blocked on a mutex waits on mutex 0. */
  lemma OneMutex(v: Kv, t: nat)
    requires Shape(v) && t < MaxTasks
    ensures v.tcb[t].mutex == 0
  {
    assert TcbOk(v.tcb[t]);
  }

  /** Every blocked task of a state whose mutex table is unchanged and whose BlockedMutex tasks were so before stays queued. */
  lemma QueuedKept(v: Kv, r: Kv)
    requires Inv(v) && Shape(r) && r.mutexes == v.mutexes
    requires forall t :: 0 <= t < MaxTasks && r.tcb[t].state == BlockedMutex ==> v.tcb[t].state == BlockedMutex
    ensures Inv(r)
  {
    forall t | 0 <= t < MaxTasks && r.tcb[t].state == BlockedMutex
      ensures t in Waiters(r.mutexes[r.tcb[t].mutex].processQueue, r.mutexes[r.tcb[t].mutex].queueSize)
    {
      OneMutex(v, t);
      OneMutex(r, t);
    }
  }

  /** A change that keeps the tcb table and every mutex queue keeps the invariant. */
  lemma MutexQueuesKept(v: Kv, r: Kv)
    requires Inv(v) && Shape(r) && r.tcb == v.tcb
    requires forall m :: 0 <= m < MaxMutexes ==>
      r.mutexes[m].processQueue == v.mutexes[m].processQueue && r.mutexes[m].queueSize == v.mutexes[m].queueSize
    ensures Inv(r)
  {
    forall t | 0 <= t < MaxTasks && r.tcb[t].state == BlockedMutex
      ensures t in Waiters(r.mutexes[r.tcb[t].mutex].processQueue, r.mutexes[r.tcb[t].mutex].queueSize)
    {
      OneMutex(v, t);
    }
  }

  /** lock keeps the invariant: a task it blocks is appended to the queue. */
  lemma LockInv(v: Kv, mx: nat)
    requires Inv(v) && Running(v) && mx < MaxMutexes && LockCanQueue(v, mx)
    ensures Inv(Lock(v, mx))
  {
    var r := Lock(v, mx);
    var m := v.mutexes[mx];
    var cur := v.taskCurrent;
    if m.lock && m.lockedBy != cur {
      var q := m.processQueue[m.queueSize := cur];
      assert Waiters(q, m.queueSize + 1) == Waiters(m.processQueue, m.queueSize) + [cur];
      forall t | 0 <= t < MaxTasks && r.tcb[t].state == BlockedMutex
        ensures t in Waiters(r.mutexes[r.tcb[t].mutex].processQueue, r.mutexes[r.tcb[t].mutex].queueSize)
      {
        OneMutex(v, t);
        OneMutex(r, t);
        if t != cur {
          assert v.tcb[t].state == BlockedMutex;
        }
      }
    } else if !m.lock {
      forall t | 0 <= t < MaxTasks && r.tcb[t].state == BlockedMutex
        ensures t in Waiters(r.mutexes[r.tcb[t].mutex].processQueue, r.mutexes[r.tcb[t].mutex].queueSize)
      {
        OneMutex(v, t);
        OneMutex(r, t);
      }
    }
  }

  /** The hand-off keeps the invariant: the first waiter is READY, the others are still queued. */
  lemma HandOffInv(v: Kv, mx: nat, relock: bool)
    requires Inv(v) && mx < MaxMutexes
    ensures Inv(HandOff(v, mx, relock))
  {
    var r := HandOff(v, mx, relock);
    var m := v.mutexes[mx];
    var n := m.queueSize as nat;
    forall t | 0 <= t < MaxTasks && r.tcb[t].state == BlockedMutex
      ensures t in Waiters(r.mutexes[r.tcb[t].mutex].processQueue, r.mutexes[r.tcb[t].mutex].queueSize)
    {
      OneMutex(v, t);
      OneMutex(r, t);
      if n > 0 {
        var q := m.processQueue;
        assert t != q[0] && v.tcb[t].state == BlockedMutex;
        assert t in q[..n];
        var j :| 0 <= j < n && q[j] == t;
        assert Waiters(Removed(q, 0, n), n - 1) == q[1..n];
        assert q[1..n][j - 1] == t;
      }
    }
  }

  lemma UnlockInv(v: Kv, mx: nat)
    requires Inv(v) && mx < MaxMutexes
    ensures Inv(Unlock(v, mx))
  {
    if v.mutexes[mx].lockedBy == v.taskCurrent {
      HandOffInv(v, mx, true);
    }
  }

  lemma WaitInv(v: Kv, s: nat)
    requires Inv(v) && Running(v) && s < MaxSemaphores && WaitCanQueue(v, s)
    ensures Inv(Wait(v, s))
  {
    QueuedKept(v, Wait(v, s));
  }

  lemma SignalInv(v: Kv, s: nat)
    requires Inv(v) && s < MaxSemaphores
    ensures Inv(Signal(v, s))
  {
    QueuedKept(v, Signal(v, s));
  }

  lemma PostInv(v: Kv, s: nat)
    requires Inv(v) && s < MaxSemaphores
    ensures Inv(Post(v, s))
  {
    QueuedKept(v, Post(v, s));
  }

  lemma SleepInv(v: Kv, ticks: u32)
    requires Inv(v) && Running(v)
    ensures Inv(Sleep(v, ticks))
  {
    QueuedKept(v, Sleep(v, ticks));
  }

  /** systickIsr keeps the invariant: a tick only moves a DELAYED task. */
  lemma TickAllInv(v: Kv)
    requires Inv(v)
    ensures Inv(v.(tcb := TickAll(v.tcb, v.taskCount)))
  {
    var r := v.(tcb := TickAll(v.tcb, v.taskCount));
    assert forall i :: 0 <= i < MaxTasks ==> (r.tcb[i].state == Invalid <==> v.tcb[i].state == Invalid);
    assert forall i :: 0 <= i < MaxTasks ==> TcbOk(r.tcb[i]);
    QueuedKept(v, r);
  }

  lemma CreateInv(v: Kv, fn: u32, name: seq<char>, priority: u8, top: u32, base: u32, stackBytes: u32, srd: Mask)
    requires Inv(v) && v.taskCount < MaxTasks && Nul in name && CLength(name) < NameLength
    ensures Inv(Create(v, fn, name, priority, top, base, stackBytes, srd))
  {
    QueuedKept(v, Create(v, fn, name, priority, top, base, stackBytes, srd));
  }

  lemma RestartInv(v: Kv, task: nat, top: u32, base: u32, srd: Mask)
    requires Inv(v) && task < MaxTasks && v.tcb[task].state == Stopped
    ensures Inv(Restart(v, task, top, base, srd))
  {
    QueuedKept(v, Restart(v, task, top, base, srd));
  }

  lemma GrantedInv(v: Kv, addr: u32, srd: Mask)
    requires Inv(v) && Running(v)
    ensures Inv(Granted(v, addr, srd))
  {
    QueuedKept(v, Granted(v, addr, srd));
  }

  lemma ClearTasksInv(v: Kv)
    requires Inv(v) && QueuesEmpty(v)
    ensures Inv(ClearTasks(v))
  {
    QueuedKept(v, ClearTasks(v));
  }

  /** Every task blocked on a mutex, except possibly task, is queued on it. */
  ghost predicate QueuedBut(v: Kv, task: nat)
    requires Shape(v)
  {
    forall t :: 0 <= t < MaxTasks && t != task && v.tcb[t].state == BlockedMutex ==>
      t in Waiters(v.mutexes[v.tcb[t].mutex].processQueue, v.mutexes[v.tcb[t].mutex].queueSize)
  }

  /** Taking the task out of its mutex queue keeps every other waiter queued. */
  lemma UnqueueQueued(v: Kv, task: nat)
    requires Inv(v) && task < v.taskCount && v.tcb[task].state == BlockedMutex
    ensures QueuedBut(Unqueue(v, task), task)
  {
    var r := Unqueue(v, task);
    OneMutex(v, task);
    var m := v.mutexes[0];
    var n := m.queueSize as nat;
    var q := m.processQueue;
    var i := FirstIndex(q, n, task);
    forall t | 0 <= t < MaxTasks && t != task && r.tcb[t].state == BlockedMutex
      ensures t in Waiters(r.mutexes[r.tcb[t].mutex].processQueue, r.mutexes[r.tcb[t].mutex].queueSize)
    {
      OneMutex(v, t);
      OneMutex(r, t);
      assert t in q[..n];
      var j :| 0 <= j < n && q[j] == t;
      assert j != i;
      assert Waiters(Removed(q, i, n), n - 1) == q[..i] + q[i + 1..n];
      if j < i {
        assert (q[..i] + q[i + 1..n])[j] == t;
      } else {
        assert (q[..i] + q[i + 1..n])[j - 1] == t;
      }
    }
  }

  lemma LeaveQueueQueued(v: Kv, task: nat)
    requires Inv(v) && task < v.taskCount
    ensures QueuedBut(LeaveQueue(v, task), task)
  {
    var t := v.tcb[task];
    if t.state == BlockedMutex {
      UnqueueQueued(v, task);
    } else {
      var r := LeaveQueue(v, task);
      forall u | 0 <= u < MaxTasks && u != task && r.tcb[u].state == BlockedMutex
        ensures u in Waiters(r.mutexes[r.tcb[u].mutex].processQueue, r.mutexes[r.tcb[u].mutex].queueSize)
      {
        OneMutex(v, u);
        OneMutex(r, u);
      }
    }
  }

  lemma ReleaseQueued(v: Kv, task: nat)
    requires Shape(v) && task < v.taskCount && QueuedBut(v, task)
    ensures QueuedBut(Release(v, task), task)
  {
    var mx := v.tcb[task].mutex;
    if v.mutexes[mx].lockedBy == task {
      var r := HandOff(v, mx, false);
      var m := v.mutexes[mx];
      var n := m.queueSize as nat;
      forall t | 0 <= t < MaxTasks && t != task && r.tcb[t].state == BlockedMutex
        ensures t in Waiters(r.mutexes[r.tcb[t].mutex].processQueue, r.mutexes[r.tcb[t].mutex].queueSize)
      {
        OneMutex(v, t);
        OneMutex(r, t);
        if n > 0 {
          var q := m.processQueue;
          assert t != q[0] && v.tcb[t].state == BlockedMutex;
          var j :| 0 <= j < n && q[j] == t;
          assert Waiters(Removed(q, 0, n), n - 1) == q[1..n];
          assert q[1..n][j - 1] == t;
        }
      }
    }
  }

  /** KillThread keeps the invariant. */
  lemma TeardownInv(v: Kv, task: nat)
    requires Inv(v) && task < v.taskCount
    ensures Inv(Teardown(v, task))
  {
    LeaveQueueQueued(v, task);
    var v1 := LeaveQueue(v, task);
    ReleaseQueued(v1, task);
    var v2 := Release(v1, task);
    var r := Retire(v2, task);
    forall t | 0 <= t < MaxTasks && r.tcb[t].state == BlockedMutex
      ensures t in Waiters(r.mutexes[r.tcb[t].mutex].processQueue, r.mutexes[r.tcb[t].mutex].queueSize)
    {
      OneMutex(v2, t);
      OneMutex(r, t);
    }
  }

  // ---------------------------------------------------------------------
  // Mutexes and semaphores
  // ---------------------------------------------------------------------

  /**
   * unlock by the owner: with waiters, the first becomes READY and the new
   * owner, the lock stays set and the queue is the rest in order; with no
   * waiter the mutex is free. Anybody else's unlock changes nothing.
   */
  lemma UnlockHandsOver(v: Kv, mx: nat)
    requires Shape(v) && mx < MaxMutexes
    ensures var m := v.mutexes[mx]; var r := Unlock(v, mx); var m' := r.mutexes[mx];
      if m.lockedBy != v.taskCurrent then r == v
      else if m.queueSize == 0 then !m'.lock && r.tcb == v.tcb
      else (m'.lock && m'.lockedBy == m.processQueue[0] && r.tcb[m.processQueue[0]].state == Ready
            && Waiters(m'.processQueue, m'.queueSize) == Waiters(m.processQueue, m.queueSize)[1..])
  {
    var m := v.mutexes[mx];
    if m.lockedBy == v.taskCurrent && m.queueSize > 0 {
      var n := m.queueSize as nat;
      assert Waiters(Removed(m.processQueue, 0, n), n - 1) == m.processQueue[1..n];
    }
  }

  /**
   * KillThread hands a mutex its task owned to the first waiter but leaves
   * the lock clear: the new owner holds a mutex any task can then lock.
   */
  lemma KilledOwnerLeavesUnlocked(v: Kv, task: nat)
    requires Shape(v) && task < v.taskCount
    requires var m := v.mutexes[v.tcb[task].mutex]; m.lockedBy == task && m.queueSize > 0
    ensures var m := v.mutexes[v.tcb[task].mutex]; var m' := Release(v, task).mutexes[v.tcb[task].mutex];
      !m'.lock && m'.lockedBy == m.processQueue[0]
  {
  }

  /** A free mutex locked and then unlocked by the same task is free again, and no task changed. */
  lemma LockUnlock(v: Kv, mx: nat)
    requires Shape(v) && Running(v) && mx < MaxMutexes && !v.mutexes[mx].lock && v.mutexes[mx].queueSize == 0
    ensures var r := Unlock(Lock(v, mx), mx);
      !r.mutexes[mx].lock && r.mutexes[mx].lockedBy == v.taskCurrent && r.tcb == v.tcb
  {
    OneMutex(v, mx);
    assert Lock(v, mx).tcb == v.tcb;
  }

  /**
   * lock writes the mutex index into tcb slot mx, not the caller's; that
   * slot already records mutex mx (there is one mutex), so the only change
   * to the tcb table is the caller blocking.
   */
  lemma LockTouchesOnlyCaller(v: Kv, mx: nat)
    requires Shape(v) && Running(v) && mx < MaxMutexes && LockCanQueue(v, mx)
    ensures var m := v.mutexes[mx];
      Lock(v, mx).tcb == if m.lock && m.lockedBy != v.taskCurrent then SetState(v.tcb, v.taskCurrent, BlockedMutex) else v.tcb
  {
    OneMutex(v, mx);
  }

  /** A wait that takes a unit and a post with nobody queued leave the semaphore as it was. */
  lemma WaitPost(v: Kv, s: nat)
    requires Shape(v) && Running(v) && s < MaxSemaphores && v.semaphores[s].count > 0 && v.semaphores[s].queueSize == 0
    ensures Post(Wait(v, s), s) == v
  {
    assert Wait(v, s).semaphores[s].queueSize == 0;
    assert Post(Wait(v, s), s).semaphores == v.semaphores;
  }

  /** post with a waiter: the first waiter is READY, the queue is the rest, the count is unchanged, and tcb slot s records semaphore s. */
  lemma PostWakesFirst(v: Kv, s: nat)
    requires Shape(v) && s < MaxSemaphores && v.semaphores[s].queueSize > 0
    ensures var sem := v.semaphores[s]; var r := Post(v, s); var sem' := r.semaphores[s];
      && r.tcb[sem.processQueue[0]].state == Ready
      && Waiters(sem'.processQueue, sem'.queueSize) == Waiters(sem.processQueue, sem.queueSize)[1..]
      && sem'.count == sem.count
      && r.tcb[s].semaphore == s
  {
    var sem := v.semaphores[s];
    var n := sem.queueSize as nat;
    var v1 := Signal(v, s);
    assert v1.semaphores[s] == Semaphore(sem.count, n - 1, Removed(sem.processQueue, 0, n));
    assert v1.tcb[sem.processQueue[0]].state == Ready;
    assert Post(v, s).semaphores == v1.semaphores;
    assert Waiters(Removed(sem.processQueue, 0, n), n - 1) == sem.processQueue[1..n];
  }

  /**
   * KillThread on a task blocked on a semaphore signals the semaphore
   * instead of leaving its queue: when another task waits ahead of it, that
   * one wakes and the killed task stays queued although it is STOPPED.
   */
  lemma KilledWaiterStaysQueued(v: Kv, task: nat)
    requires Inv(v) && task < v.taskCount && v.tcb[task].state == BlockedSemaphore
    requires var sem := v.semaphores[v.tcb[task].semaphore];
      sem.queueSize >= 2 && sem.processQueue[0] != task && sem.processQueue[1] == task
    ensures var s := v.tcb[task].semaphore; var r := Teardown(v, task);
      r.tcb[task].state == Stopped && Waiters(r.semaphores[s].processQueue, r.semaphores[s].queueSize)[0] == task
  {
  }

  // ---------------------------------------------------------------------
  // The timer
  // ---------------------------------------------------------------------

  /** A record after k timer ticks. */
  function Ticks(t: Tcb, k: nat): (r: Tcb)
    decreases k
  {
    if k == 0 then t else Tick(Ticks(t, k - 1))
  }

  /**
   * sleep(k) with k >= 1: the task stays DELAYED for k - 1 ticks, with
   * k - j ticks left after j of them, and is READY after the k-th.
   */
  lemma {:induction false} SleepCountsDown(t: Tcb, k: nat, j: nat)
    requires t.state == Delayed && t.ticks as nat == k && 1 <= k && j <= k
    ensures j < k ==> Ticks(t, j).state == Delayed && Ticks(t, j).ticks as nat == k - j
    ensures j == k ==> Ticks(t, j).state == Ready && Ticks(t, j).ticks == 0
    decreases j
  {
    if j > 0 {
      SleepCountsDown(t, k, j - 1);
    }
  }

  /** sleep(0) does not return at the next tick: the uint32_t count wraps to 2^32 - 1. */
  lemma SleepZeroWraps(t: Tcb)
    requires t.state == Delayed && t.ticks == 0
    ensures Tick(t).state == Delayed && Tick(t).ticks == 0xFFFF_FFFF
  {
  }

  // ---------------------------------------------------------------------
  // Creating and restarting tasks
  // ---------------------------------------------------------------------

  /** The seventeen frame words land on seventeen different addresses. */
  lemma SlotsDistinct(top: u32, j: nat, k: nat)
    requires j < 17 && k < 17 && j != k
    ensures Slot(top, j) != Slot(top, k)
  {
  }

  /**
   * The saved sp points at EXC_RETURN; R4 .. R11 lie above it, then R0 at
   * sp + 36, the PC (the pid) at sp + 60 and xPSR at sp + 64, the top word
   * of the stack (spInit). All in uint32_t arithmetic.
   */
  lemma FrameLayout(top: u32, pid: u32)
    ensures var sp := Slot(top, 16); var f := InitialFrame(pid);
      && f[16] == 0xFFFF_FFFD
      && Slot(top, 7) == Trunc32(sp + 36) && f[7] == 0x1A
      && Slot(top, 1) == Trunc32(sp + 60) && f[1] == pid
      && Slot(top, 0) == Trunc32(sp + 64) && f[0] == 0x0100_0000
  {
  }

  /** After createThread the pid is taken, so a second createThread of the same function is refused. */
  lemma CreateTakesPid(v: Kv, fn: u32, name: seq<char>, priority: u8, top: u32, base: u32, stackBytes: u32, srd: Mask)
    requires Shape(v) && v.taskCount < MaxTasks && Nul in name && CLength(name) < NameLength
    ensures var r := Create(v, fn, name, priority, top, base, stackBytes, srd);
      PidTaken(r.tcb, fn) && r.tcb[v.taskCount].state == Ready && CStr(r.tcb[v.taskCount].name) == CStr(name)
  {
    var r := Create(v, fn, name, priority, top, base, stackBytes, srd);
    assert r.tcb[v.taskCount].pid == fn;
  }

  /** After initRtos every pid is 0: createThread refuses a task function at address 0 and no other. */
  lemma ClearedPids(v: Kv, fn: u32)
    requires Shape(v) && QueuesEmpty(v)
    ensures PidTaken(ClearTasks(v).tcb, fn) <==> fn == 0
  {
    var r := ClearTasks(v);
    if fn == 0 {
      assert r.tcb[0].pid == 0;
    }
  }

  /** A restarted task keeps its pid, name, priority and stack size and is READY with no ticks pending. */
  lemma RestartKeepsIdentity(v: Kv, task: nat, top: u32, base: u32, srd: Mask)
    requires Shape(v) && task < MaxTasks && v.tcb[task].state == Stopped
    ensures var t := v.tcb[task]; var t' := Restart(v, task, top, base, srd).tcb[task];
      && t'.state == Ready && t'.ticks == 0 && t'.pid == t.pid && t'.name == t.name
      && t'.priority == t.priority && t'.threadSize == t.threadSize && t'.sp == Slot(top, 16)
  {
  }

  /**
   * KillThread of pid 0 (or of the empty name) can land on a free slot: a
   * free slot has pid 0 and an empty name, so when no live task matches
   * first, the first free slot is the one it would tear down.
   */
  lemma KillZeroHitsFreeSlot(v: Kv, name: seq<char>)
    requires Shape(v) && v.taskCount < MaxTasks && Nul in name && v.tcb[v.taskCount].pid == 0
    requires forall j :: 0 <= j < v.taskCount ==> !Matches(v.tcb[j], 0, name) || v.tcb[j].state == Stopped
    ensures forall j :: 0 <= j < MaxTasks ==> Nul in v.tcb[j].name
    ensures KillTarget(v.tcb, 0, name, 0) == Some(v.taskCount)
  {
    assert forall j :: 0 <= j < MaxTasks ==> TcbOk(v.tcb[j]);
    var c := v.taskCount;
    assert Matches(v.tcb[c], 0, name) && v.tcb[c].state == Invalid;
    var r := KillTarget(v.tcb, 0, name, 0);
    assert r.Some? && r.value == c;
  }
}
