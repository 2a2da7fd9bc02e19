// The search and shift loops of src/kernel.c, over the contents of the
// tables. Each reads the tables and changes nothing in them; the kernel
// methods that call these write the result back. Each loop is proved to
// compute a function of KernelState.

module KernelScans {
  import opened Machine
  import opened GetInput
  import opened KernelState

  /** The search loop of KillThread over a wait queue: the first position below n holding x, or n. */
  method FindInQueue(q: seq<u8>, n: nat, x: nat) returns (i: nat)
    requires n <= |q|
    ensures i == FirstIndex(q, n, x)
  {
    i := 0;
    while i < n
      invariant 0 <= i <= n
      invariant FirstIndexFrom(q, n, x, i) == FirstIndex(q, n, x)
    {
      if q[i] as nat == x {
        return;
      }
      i := i + 1;
    }
  }

  /**
   * The shift loops of unlock, post and KillThread: entries from+1 .. n-1
   * of a wait queue move down one place, overwriting entry from; entry
   * n-1 keeps its value.
   */
  method ShiftDown(q: seq<u8>, from: nat, n: nat) returns (r: seq<u8>)
    requires from < n <= |q|
    ensures r == Removed(q, from, n)
  {
    r := q;
    var j := from;
    while j < n - 1
      invariant from <= j <= n - 1 && |r| == |q|
      invariant forall k :: from <= k < j ==> r[k] == q[k + 1]
      invariant forall k :: 0 <= k < |q| && !(from <= k < j) ==> r[k] == q[k]
    {
      r := r[j := r[j + 1]];
      j := j + 1;
    }
    var removed := Removed(q, from, n);
    assert forall k :: 0 <= k < |q| ==> r[k] == removed[k];
  }

  /**
   * The loop of KillThread: the first slot whose pid is the argument or
   * whose name equals the argument string and that is not STOPPED; a
   * STOPPED match is passed over.
   */
  method FindKillTarget(tcb: seq<Tcb>, pid: u32, name: seq<char>) returns (r: Option<nat>)
    requires Nul in name && forall j :: 0 <= j < |tcb| ==> Nul in tcb[j].name
    ensures r == KillTarget(tcb, pid, name, 0)
  {
    var task := 0;
    while task < |tcb|
      invariant 0 <= task <= |tcb|
      invariant KillTarget(tcb, pid, name, task) == KillTarget(tcb, pid, name, 0)
    {
      if pid == tcb[task].pid || CmpStr(tcb[task].name, name) == 0 {
        if tcb[task].state != Stopped {
          return Some(task);
        }
      }
      task := task + 1;
    }
    return None;
  }

  /** The loop of case 14: the first slot whose pid or name matches, in whatever state. */
  method FindRestartTarget(tcb: seq<Tcb>, pid: u32, name: seq<char>) returns (r: Option<nat>)
    requires Nul in name && forall j :: 0 <= j < |tcb| ==> Nul in tcb[j].name
    ensures r == FirstMatch(tcb, pid, name, 0)
  {
    var task := 0;
    while task < |tcb|
      invariant 0 <= task <= |tcb|
      invariant FirstMatch(tcb, pid, name, task) == FirstMatch(tcb, pid, name, 0)
    {
      if pid == tcb[task].pid || CmpStr(tcb[task].name, name) == 0 {
        return Some(task);
      }
      task := task + 1;
    }
    return None;
  }

  /** The loop of case 11: the first slot whose name equals the argument string. */
  method FindName(tcb: seq<Tcb>, name: seq<char>) returns (r: Option<nat>)
    requires Nul in name && forall j :: 0 <= j < |tcb| ==> Nul in tcb[j].name
    ensures r == NameMatch(tcb, name, 0)
  {
    var i := 0;
    while i < |tcb|
      invariant 0 <= i <= |tcb|
      invariant NameMatch(tcb, name, i) == NameMatch(tcb, name, 0)
    {
      if CmpStr(tcb[i].name, name) == 0 {
        return Some(i);
      }
      i := i + 1;
    }
    return None;
  }

  /** The reentrancy check of createThread: `found = (tcb[i++].pid == fn)` over all twelve slots. */
  method PidInUse(tcb: seq<Tcb>, fn: u32) returns (found: bool)
    requires |tcb| == MaxTasks
    ensures found <==> PidTaken(tcb, fn)
  {
    found := false;
    var i := 0;
    while !found && i < MaxTasks
      invariant 0 <= i <= MaxTasks
      invariant !found ==> forall j :: 0 <= j < i ==> tcb[j].pid != fn
      invariant found ==> PidTaken(tcb, fn)
    {
      found := tcb[i].pid == fn;
      i := i + 1;
    }
  }

  /** The free-slot loop of createThread: with the live slots first, the first INVALID slot is slot taskCount. */
  method FirstFreeSlot(tcb: seq<Tcb>, count: nat) returns (i: nat)
    requires |tcb| == MaxTasks && count < MaxTasks && LiveSlots(tcb, count)
    ensures i == count && tcb[i].state == Invalid
  {
    i := 0;
    while tcb[i].state != Invalid
      invariant i <= count
      decreases count - i
    {
      i := i + 1;
    }
  }
}
