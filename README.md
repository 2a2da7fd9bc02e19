# RTOS kernel, heap and string utilities in Dafny

A model of the core of a small pre-emptive RTOS for a TM4C123 (Cortex-M4)
board, with proofs about it. The model has three parts.

- **The heap and the MPU masks (`mm.c`).** A two-pool block allocator keeps
  a usage mask `MemUse`: bits 0-23 are 512-byte blocks from `0x20001000`,
  bits 24-39 are 1024-byte blocks from `0x20004000`, and the limit is
  `0x20008000`. Beside it sits a table of forty allocation records. The
  sub-region-disable arithmetic turns a byte range into cleared bits of a
  40-bit SRD mask and places each region's byte in bits 8-15 of its MPU
  attribute word.
  Files: `mm.dfy` (module `MemoryManager`), `heap_properties.dfy`,
  `sram_access.dfy`, `sram_properties.dfy`.
- **The string and number utilities (`getInput.c`).** These are the field
  tokenizer, the command matcher, `cmpStr`, decimal and hex formatting,
  decimal parsing, `isInteger`, `reverseStr` and `StringCopy`.
  File: `getinput.dfy`.
- **The kernel (`src/kernel.c`).** This is the task table, the two
  schedulers, thread creation, kill and restart, the SysTick countdown,
  PendSV, and the service calls for sleep, lock, unlock, wait, post,
  malloc, mode flags and pidof.
  Files:
  - `kernel_state.dfy`: the kernel state as values (`Kv`) and every service
    call as a function of it;
  - `kernel_properties.dfy`: the invariant each call keeps, and what the
    calls do;
  - `scheduling.dfy`: the two schedulers as functions, with their fairness
    proofs;
  - `kernel_scans.dfy`: the search and shift loops;
  - `kernel.dfy`: the `Kernel` class, which holds the tables in arrays;
    each of its methods is proved equal to the function of its call.

`machine.dfy` holds the machine words (`u8`, `u16`, `u32`, the
truncations, the 32-bit wrap of `int32_t`). It also holds masks, which
are sets of bit positions: a 64-bit `uint64_t` mask is the set of its one
bits, so `|`, `&~` and shifts become set union, difference and spans.

State that the C code changes in place is modelled in place:
- `Heap` holds `MemUse`, the allocation table and `count`;
- `UserData` holds the buffer and field arrays that `parseFields` fills;
- `Kernel` holds the `tcb`, `mutexes` and `semaphores` arrays,
  `taskCurrent`, `taskCount`, the static `task` and `LastRanTask` of the
  scheduler, the mode flags, the five MPU attribute words, the heap, and
  the stack memory as a map from word address to word.

Loops are methods with invariants, proved against the functions that
specify them. The trap handlers are atomic steps. Each service call takes
its argument as a parameter, and a request for PendSV is a flag.

Where the code and its comments disagree, the model follows the code:
- `lock` records the mutex index in `tcb[mutex]` rather than in the
  caller's slot, and `post` does the same with `tcb[sema]`;
- the semaphore branch of `KillThread` signals the semaphore, which wakes
  the first waiter rather than removing the killed task;
- the mutex hand-off in `KillThread` leaves `lock` false.

Four places where the code does not do what it evidently means are listed
under "Findings". For each, the model keeps the code as written beside a
corrected version, and the `Kernel` class uses the corrected one:
- `InitSemaphore` stores the count only when the index is in range, beside
  `InitSemaphoreAsWritten`;
- `StackRoundUp` gives the stack top that createThread and restart compute,
  beside `RoundUp`;
- `FreeAndCompact` does the two frees of `KillThread`, beside `FreeToHeap`;
  in the kill of `KillCompactingFreesOnce` its free of the NULL Allocation
  finds nothing, where the C one removes a second record
  (`KillFreesTwice`).

## Model

| member | source | states |
|---|---|---|
| MemoryManager.SizeMatch | mm.c:57-67 | 512 exactly for requests of at most 512 bytes, 1024 otherwise |
| MemoryManager.RoundUp | mm.c:337-351 | 512 stays 512; any other count rounds up to a multiple of 1024, within 1023 above it; counts that overflow uint32_t give 0 |
| MemoryManager.StackRoundUp | mm.c:337-351 | 512 for a request the allocator serves from the small path, RoundUp otherwise; StackTopInGrant states the effect |
| MemoryManager.BlocksNeeded | mm.c:75 | the ceiling of size/1024 whenever it fits in uint8_t |
| MemoryManager.LowestClear | mm.c:79-88 | the lowest clear bit in a range, with every bit below it set; None exactly when the whole range is set |
| MemoryManager.ProbeRun | mm.c:110-123 | the inner probe ends Clear exactly when the rest of the run is free, and Limit exactly when it crosses HeapLimit over free blocks |
| MemoryManager.RunScan | mm.c:107-134 | the first start whose run is free; every earlier start is blocked; PastLimit or NoRun when no run fits |
| MemoryManager.MallocPlan | mm.c:71-136 | a grant covers only clear bits inside the 40 blocks, its address is that of its first block, and a 512-pool grant is one block |
| MemoryManager.SmallGrant | mm.c:76-101 | the small path grants one clear block, at the address of its bit |
| MemoryManager.LargeGrant | mm.c:102-135 | the large path grants n clear blocks of the 1024 pool, at the address of the first |
| MemoryManager.Store | mm.c:42-55 | below forty records, appends the record and increments count; at forty, nothing changes |
| MemoryManager.Malloc | mm.c:71-137 | NULL exactly when no grant exists, and then the state is unchanged; otherwise the granted bits are set and the record is stored |
| MemoryManager.FirstMatch | mm.c:144-146 | the first record below count with the address, or None when there is none |
| MemoryManager.BlockIndex | mm.c:149-168 | an address inside the heap maps to the block that holds it; an address outside maps to None |
| MemoryManager.Release | mm.c:149-168 | clears exactly blocksUsed bits from the record's block index, and nothing for an address outside the pools |
| MemoryManager.Free | mm.c:140-180 | with no matching record nothing changes; otherwise the bits are released, the record is zeroed and count goes down by one |
| MemoryManager.FreeCompacting | mm.c:140-180 | the corrected freeToHeap leaves the same MemUse and count as Free; FreeCompactingKeepsOthers states which records it keeps |
| MemoryManager.Heap.constructor | mm.c:32-36 | an empty heap: no bits set and a zeroed table |
| MemoryManager.Heap.StoreAllocation | mm.c:42-55 | the new state is Store of the old one |
| MemoryManager.Heap.MallocFromHeap | mm.c:71-137 | the new state and the address are Malloc of the old state |
| MemoryManager.Heap.FreeToHeap | mm.c:140-180 | the new state is Free of the old state |
| MemoryManager.Heap.FreeAndCompact | mm.c:140-180 | the new state is FreeCompacting of the old state |
| MemoryManager.FindBlocks | mm.c:73-136 | the loops compute MallocPlan |
| MemoryManager.FindSmall | mm.c:76-101 | the two small-request loops compute SmallGrant |
| MemoryManager.FindLarge | mm.c:102-135 | the large-request loops compute LargeGrant |
| MemoryManager.FindClearBlock | mm.c:79-88 | the loop computes LowestClear |
| MemoryManager.FindRun | mm.c:107-134 | the nested loops compute RunScan from start 0 |
| MemoryManager.MarkUsed | mm.c:126-129 | the loop sets exactly the bits lo .. lo+n-1 |
| MemoryManager.MarkFree | mm.c:153-157 | the loop clears exactly the bits lo .. lo+n-1 |
| HeapProperties.BlockIndexOfAddress | mm.c:84-165 | the block index recomputed from a block's address is that block |
| HeapProperties.SmallRequestFirstFit | mm.c:76-88 | a small request takes the lowest clear 512-byte block k, at 0x20001000 + 512k |
| HeapProperties.SmallRequestSpillover | mm.c:90-100 | with the 512 pool full, a small request takes the lowest clear 1024-byte block, at 0x20004000 + 1024k, as one block |
| HeapProperties.SmallRequestFails | mm.c:76-101 | a small request fails exactly when all forty bits are set |
| HeapProperties.LargeRequestFirstFit | mm.c:102-135 | a large request takes the first free run of ceil(n/1024) blocks |
| HeapProperties.LargePlan | mm.c:102-136 | the large path grants the run RunScan finds and nothing when it finds none |
| HeapProperties.LargeRequestFails | mm.c:102-136 | a large request fails exactly when no start has a free run |
| HeapProperties.ScanFindsRun | mm.c:107-134 | if some start has a free run, the scan finds one |
| HeapProperties.FreeUndoesMalloc | mm.c:71-180 | on a tracked table with fewer than forty records, freeing the address of a successful malloc of at least one block restores MemUse and count |
| HeapProperties.MallocKeepsTracked | mm.c:71-137 | a malloc that takes at least one block (or fails) keeps the table tracked: every counted record that is not NULL holds at least one block, all marked used, and no two hold a block in common |
| HeapProperties.FreeKeepsTracked | mm.c:140-180 | freeToHeap keeps the table tracked, whatever address it is given |
| HeapProperties.ZeroBlockGrant | mm.c:75 | a request of 261500 bytes needs 256 blocks, truncated to 0 in uint8_t: it is granted zero blocks at 0x20004000 |
| HeapProperties.FreeLosesLastRecord | mm.c:171-175 | freeing the first of two allocations zeroes its record and drops count to 1, so the second record is no longer searched and freeing it changes nothing |
| HeapProperties.FreeCompactingKeepsOthers | mm.c:140-180 | after the corrected free, every other address is recorded, and found by the search, exactly when it was before |
| HeapProperties.FreeCompactingKeepsTracked | mm.c:140-180 | the corrected free keeps the table tracked |
| HeapProperties.KillFreesTwice | src/kernel.c:345-346 | as written, killing the first of two 100-byte stacks frees its record and then, through the NULL Allocation, the zeroed record too: count drops from 2 to 0, the second stack's record is out of the search and its block stays marked |
| HeapProperties.KillCompactingFreesOnce | src/kernel.c:345-346 | with the corrected free the same kill leaves one record, the second stack's, found at index 0 and its block alone marked |
| HeapProperties.FreeCompactingRestores | mm.c:140-180 | with the corrected free, the two allocations of FreeLosesLastRecord are both freed and the heap ends empty |
| SramAccess.RegionAt | mm.c:256-289 | the MPU region 2-6 of a heap address, with its base and sub-region size; None outside the heap |
| SramAccess.CreateNoSramAccessMask | mm.c:238-242 | exactly the 40 SRD bits are set, in 64 bits |
| SramAccess.PassIn | mm.c:293-317 | one pass clears sub-regions StartSR .. EndSR with EndSR clamped to 7, and advances at least 512 bytes |
| SramAccess.StrideAt | mm.c:250-317 | a pass exists exactly when the address lies in a region; it clears only SRD bits and shrinks the size left |
| SramAccess.WindowBits | mm.c:250-318 | the bits the whole loop clears lie within the 40 SRD bits |
| SramAccess.WindowPass | mm.c:250-318 | clearing a window is one pass followed by the window of the rest |
| SramAccess.AddWindow | mm.c:244-319 | the mask only loses bits, and only SRD bits; a size that is not positive as an int leaves it unchanged |
| SramAccess.AddSramAccessWindow | mm.c:244-319 | the loop computes AddWindow; outside the five regions the first division by the zero sub-region size traps into the usage fault, which never returns (None) |
| SramAccess.WindowPassStep | mm.c:252-317 | one loop iteration is one StrideAt pass, or, outside the five regions, the division by the zero sub-region size that traps into the usage fault |
| SramAccess.SetSrdField | mm.c:333 | bits 8-15 of the word become the byte; all other bits are kept |
| SramAccess.RegionByte | mm.c:329-330 | the byte of region i is below 256 |
| SramAccess.ApplySramAccessMask | mm.c:321-335 | each of the five attribute words gets its region's SRD byte in bits 8-15 and keeps every other bit |
| SramProperties.WindowOverBlocks | mm.c:244-319 | the window over n blocks from block k clears exactly the bits k .. k+n-1 |
| SramProperties.WindowExample | mm.c:244-319 | base 0x20001400 and size 0x400 clear bits 2 and 3 |
| SramProperties.GrantWindow | mm.c:71-137 | the window over a granted allocation is exactly the bits of the grant |
| SramProperties.GrantAccess | mm.c:244-319 | adding the window of a grant clears exactly the grant's bits from the mask |
| SramProperties.AddWindowIdempotent | mm.c:244-319 | adding the same window twice gives the mask of adding it once |
| SramProperties.NullWindowHangs | mm.c:286-317 | a window at address 0 with a positive size never returns: address 0 is in no region, so its first division by the zero sub-region size traps |
| SramProperties.NoAccessBytes | mm.c:238-242 | every region byte of the no-access mask is 0xFF |
| SramProperties.RegionByteBit | mm.c:329-330 | bit j of region i's byte is SRD bit 8i+j |
| GetInput.CLength | getInput.c:131 | the index of the first NUL |
| GetInput.CStr | getInput.c:131 | the characters before the first NUL, which hold no NUL |
| GetInput.CmpStr | getInput.c:129-137 | 0 exactly when the two C strings are equal; otherwise the difference of the first differing characters |
| GetInput.MatchFrom | getInput.c:146-178 | the comparison loop accepts exactly when the command matches a buffer prefix ignoring case and is followed by ' ' or NUL |
| GetInput.IsCommand | getInput.c:141-179 | true exactly when the command matches and fieldCount - 1, in uint8_t, is at least minArguments |
| GetInput.IsInteger | getInput.c:226-237 | true exactly when every character before the NUL is a decimal digit |
| GetInput.FieldsExact | getInput.c:62-93 | the fields found are exactly the delimiter-to-token transitions, in order, each typed by its first character |
| GetInput.ParsedRun | getInput.c:62-93 | after parsing, the string at a position is the token run that starts there |
| GetInput.ParsedField | getInput.c:64-91 | each recorded field is a non-empty token string, typed 'a' exactly when it starts with a letter or '_' |
| GetInput.RecordStep | getInput.c:68-84 | each new field fills the next table entry, and none is recorded past five |
| GetInput.UserData.ParseFields | getInput.c:55-94 | the buffer becomes Parsed, fieldCount is the number of fields, and the tables hold their positions and types |
| GetInput.GetFieldString | getInput.c:97-107 | the buffer offset of field n below 5; the read one past the table at 5; NULL above |
| GetInput.GetFieldInteger | getInput.c:109-126 | None exactly for the read past the table; otherwise an int32 value, nonzero only for a numeric field |
| GetInput.ReverseReverse | getInput.c:188-200 | reversing twice gives the string back |
| GetInput.ReverseStr | getInput.c:188-200 | the first len characters are reversed and the rest are kept |
| GetInput.DecimalDigits | getInput.c:203-223 | at least one decimal digit, with a leading zero only for 0 |
| GetInput.LsbDigitsReversed | getInput.c:214-222 | the digits the loop writes, reversed, are the decimal digits |
| GetInput.IntToStr | getInput.c:203-223 | writes the decimal digits, most significant first, then NUL, and keeps the rest of the buffer |
| GetInput.DigitsLength | getInput.c:203-223 | a number below 10^k has at most k digits |
| GetInput.DecimalDigitsValue | getInput.c:203-223 | the digits denote the number |
| GetInput.NumericFieldValue | getInput.c:109-126 | for a numeric field of decimal digits whose value fits in int32_t, getFieldInteger returns that value |
| GetInput.AccumulateDecimal | getInput.c:118-122 | on digit strings whose value fits, the int32 accumulation loop computes the value |
| GetInput.IntToStrRoundTrip | getInput.c:109-223 | reading back the digits of num with the loop of getFieldInteger gives num, for num < 2^31 |
| GetInput.HexDigits | getInput.c:240-255 | eight characters, the k-th being the hex digit of nibble 7-k |
| GetInput.IntToHex | getInput.c:240-255 | writes the eight uppercase hex digits, most significant first, NUL at index 8, and keeps the rest |
| GetInput.HexPrefixValue | getInput.c:248-253 | the first k hex digits denote num shifted right by 4(8-k) |
| GetInput.IntToHexRoundTrip | getInput.c:240-255 | the eight hex digits denote num |
| GetInput.StringCopy | getInput.c:258-267 | copies every character before the NUL, then a NUL, and keeps the rest |
| GetInput.CopiedString | getInput.c:258-267 | the copy equals the source as a C string, and cmpStr of the two is 0 |
| KernelState.Removed | src/kernel.c:359-363 | the live entries keep their order without entry i; the last old entry keeps its value |
| KernelState.FirstIndex | src/kernel.c:351-357 | the first position holding x, or the queue size when x is not queued |
| KernelState.SetState | src/kernel.c:513 | only slot i changes, and only its state |
| KernelState.TickAll | src/kernel.c:423-433 | each slot below taskCount ticks; the others are unchanged |
| KernelState.KillTarget | src/kernel.c:339-415 | the first slot matching pid or name that is not STOPPED; every earlier match is STOPPED |
| KernelState.FirstMatch | src/kernel.c:679-727 | the first slot matching pid or name, in any state |
| KernelState.NameMatch | src/kernel.c:631-640 | the first slot whose name equals the argument as a C string |
| KernelState.Slot | src/kernel.c:238-255 | the k-th pushed word sits at top - 4(k+1), in uint32_t |
| KernelState.FrameAddresses | src/kernel.c:238-255 | exactly the seventeen frame word addresses |
| KernelState.CopyName | src/kernel.c:229 | the name field after StringCopy is the argument as a C string |
| KernelState.Lock | src/kernel.c:501-524 | keeps the table shapes; what lock does is stated by LockInv, LockTouchesOnlyCaller and LockUnlock |
| KernelState.HandOff | src/kernel.c:532-548 | keeps the table shapes and taskCount |
| KernelState.Unlock | src/kernel.c:526-551 | keeps the table shapes; UnlockHandsOver states the effect |
| KernelState.Wait | src/kernel.c:553-570 | keeps the table shapes; WaitPost states the effect |
| KernelState.Signal | src/kernel.c:366-383 | keeps the table shapes and taskCount |
| KernelState.Post | src/kernel.c:572-591 | keeps the table shapes; PostWakesFirst states the effect |
| KernelState.Sleep | src/kernel.c:491-499 | the caller becomes DELAYED with the given ticks; nothing else in its slot, no other slot and no other table changes |
| KernelState.Unqueue | src/kernel.c:348-364 | keeps the table shapes and taskCount; UnqueueQueued states the effect |
| KernelState.LeaveQueue | src/kernel.c:348-384 | keeps the table shapes and taskCount |
| KernelState.Release | src/kernel.c:386-403 | keeps the table shapes and taskCount; KilledOwnerLeavesUnlocked states the effect |
| KernelState.Retire | src/kernel.c:406-407 | the slot gets the no-access mask and becomes STOPPED; nothing else in it, no other slot and no other table changes |
| KernelState.Teardown | src/kernel.c:348-407 | keeps the table shapes; TeardownInv and KilledWaiterStaysQueued state the effect |
| KernelState.InitialFrame | src/kernel.c:238-255 | seventeen words |
| KernelState.Create | src/kernel.c:215-261 | keeps the table shapes and adds one task; CreateTakesPid states the effect |
| KernelState.Restart | src/kernel.c:683-717 | keeps the table shapes; RestartKeepsIdentity states the effect |
| KernelState.Granted | src/kernel.c:597-598 | keeps the table shapes |
| KernelState.ClearTasks | src/kernel.c:108-118 | keeps the table shapes with no tasks |
| KernelProperties.BootInv | src/kernel.c:28-81 | the zeroed tables satisfy the kernel invariant |
| KernelProperties.LockInv | src/kernel.c:501-524 | lock keeps the invariant: every task blocked on a mutex is in its queue |
| KernelProperties.HandOffInv | src/kernel.c:532-548 | the hand-off keeps the invariant |
| KernelProperties.UnlockInv | src/kernel.c:526-551 | unlock keeps the invariant |
| KernelProperties.WaitInv | src/kernel.c:553-570 | wait keeps the invariant |
| KernelProperties.SignalInv | src/kernel.c:366-383 | signalling keeps the invariant |
| KernelProperties.PostInv | src/kernel.c:572-591 | post keeps the invariant |
| KernelProperties.SleepInv | src/kernel.c:491-499 | sleep keeps the invariant |
| KernelProperties.TickAllInv | src/kernel.c:420-433 | the tick keeps the invariant |
| KernelProperties.CreateInv | src/kernel.c:215-261 | createThread keeps the invariant |
| KernelProperties.RestartInv | src/kernel.c:683-717 | restart keeps the invariant |
| KernelProperties.GrantedInv | src/kernel.c:593-602 | case 7 keeps the invariant |
| KernelProperties.ClearTasksInv | src/kernel.c:108-118 | initRtos keeps the invariant |
| KernelProperties.UnqueueQueued | src/kernel.c:348-364 | after a blocked task leaves its mutex queue, every other blocked task is still queued |
| KernelProperties.LeaveQueueQueued | src/kernel.c:348-384 | the same holds after either branch of the queue step of KillThread |
| KernelProperties.ReleaseQueued | src/kernel.c:386-403 | the same holds after the mutex release of KillThread |
| KernelProperties.TeardownInv | src/kernel.c:348-407 | KillThread's teardown keeps the invariant |
| KernelProperties.UnlockHandsOver | src/kernel.c:526-551 | unlock by a non-owner changes nothing; with an empty queue the lock clears; otherwise the head becomes READY and the owner, the lock stays set and the rest of the queue moves up in order |
| KernelProperties.KilledOwnerLeavesUnlocked | src/kernel.c:386-402 | when a killed owner has waiters, the head becomes the owner but lock stays false |
| KernelProperties.LockUnlock | src/kernel.c:501-551 | lock then unlock of a free mutex with nobody waiting leave it unlocked, lockedBy the caller, and the tcb table as before |
| KernelProperties.LockTouchesOnlyCaller | src/kernel.c:501-524 | lock changes the tcb table only by blocking the caller, and only when another task holds the mutex (the write to slot mutex stores the value it already has) |
| KernelProperties.WaitPost | src/kernel.c:553-591 | wait on a positive count and then post restore the state exactly |
| KernelProperties.PostWakesFirst | src/kernel.c:572-591 | post with waiters wakes the first, shifts the rest up in order, leaves the count unchanged and writes tcb[sema].semaphore |
| KernelProperties.KilledWaiterStaysQueued | src/kernel.c:366-383 | killing a task second in a semaphore queue wakes the first and leaves the killed task at the head |
| KernelProperties.SleepCountsDown | src/kernel.c:420-433 | sleep(k) with k at least 1 makes the task READY after exactly k ticks, and it stays DELAYED before |
| KernelProperties.SleepZeroWraps | src/kernel.c:427 | a DELAYED task with ticks 0 wraps to 0xFFFFFFFF and stays DELAYED |
| KernelProperties.SlotsDistinct | src/kernel.c:238-255 | the seventeen frame words have distinct addresses |
| KernelProperties.FrameLayout | src/kernel.c:238-257 | the saved sp is top - 68; EXC_RETURN is at sp, R0 = 0x1A at sp+36, the pid at sp+60 and xPSR at sp+64 |
| KernelProperties.CreateTakesPid | src/kernel.c:215-261 | after createThread the pid is taken and slot taskCount is READY with the name |
| KernelProperties.ClearedPids | src/kernel.c:114-118 | after initRtos the only pid in the table is 0 |
| KernelProperties.RestartKeepsIdentity | src/kernel.c:683-717 | restart makes the task READY with ticks 0 and the new sp, and keeps its pid, name, priority and size |
| KernelProperties.KillZeroHitsFreeSlot | src/kernel.c:339-343 | a kill of pid 0 with no earlier live match picks the free slot taskCount |
| Scheduling.ScanFrom | src/kernel.c:157-166 | the first offset from s, modulo n, whose slot is eligible |
| Scheduling.Pick | src/kernel.c:157-166 | the pick is eligible |
| Scheduling.PickFirst | src/kernel.c:155-166 | no slot between the start and the pick is eligible |
| Scheduling.Succ | src/kernel.c:172-178 | the first eligible slot strictly after x, cyclically |
| Scheduling.SuccInside | src/kernel.c:172-178 | the successor of an eligible slot is the next eligible slot in index order |
| Scheduling.SuccWraps | src/kernel.c:172-178 | the successor of the last eligible slot is the first one |
| Scheduling.CyclicFairness | src/kernel.c:172-178 | from an eligible slot, the successor chain returns after M steps, reaches every eligible slot within M steps, and repeats none within M steps |
| Scheduling.ReadyFlags | src/kernel.c:177 | flag i is set exactly when slot i is READY |
| Scheduling.LevelFlags | src/kernel.c:160 | flag i is set exactly when slot i is READY at level hp |
| Scheduling.Highest | src/kernel.c:141-149 | the lowest priority value among READY slots, and the slot that gave it |
| Scheduling.HighestFound | src/kernel.c:141-149 | with a READY task of priority below 16, the scan finds a live one |
| Scheduling.TopLevel | src/kernel.c:141-149 | a level no READY task is below, with a READY task at it |
| Scheduling.ReduceMod | src/kernel.c:155 | the reduction is `% taskCount` |
| Scheduling.PriorityStep | src/kernel.c:134-168 | picks a live READY task whose priority is the minimum over READY tasks, and records it in LastRanTask of that level |
| Scheduling.PriorityStepIs | src/kernel.c:152-166 | the pick is the first READY task of that level from (LastRanTask + 1) mod taskCount |
| Scheduling.RoundRobinStep | src/kernel.c:170-180 | the pick is a READY slot |
| Scheduling.RoundRobinNext | src/kernel.c:172-178 | it is the first READY slot strictly after the previous task modulo 12 |
| Scheduling.RoundRobinFair | src/kernel.c:170-180 | with states unchanged, M READY tasks are each picked once in M calls |
| Scheduling.PriorityStepIsSucc | src/kernel.c:152-166 | at a level, the pick is the successor of the last task run there |
| Scheduling.CallsOrbitAll | src/kernel.c:134-168 | k calls with states unchanged advance the level's last-run entry k steps along the successor chain |
| Scheduling.PriorityFair | src/kernel.c:134-168 | with states unchanged, the M READY peers at the top level are each picked once in M calls |
| KernelScans.FindInQueue | src/kernel.c:351-357 | the loop finds FirstIndex |
| KernelScans.ShiftDown | src/kernel.c:359-362 | the loop computes Removed |
| KernelScans.FindKillTarget | src/kernel.c:339-415 | the loop finds KillTarget |
| KernelScans.FindRestartTarget | src/kernel.c:679-727 | the loop finds FirstMatch |
| KernelScans.FindName | src/kernel.c:631-640 | the loop finds NameMatch |
| KernelScans.PidInUse | src/kernel.c:209-212 | found exactly when some slot has pid fn |
| KernelScans.FirstFreeSlot | src/kernel.c:222 | with the live slots first, the loop stops at slot taskCount, which is INVALID |
| Kernel.PushInitialFrame | src/kernel.c:237-257 | the seventeen words are stored below top, nothing else is written, and p ends at top - 68 |
| Kernel.WrittenFrame | src/kernel.c:238-255 | the pushes store exactly the initial frame |
| Kernel.CopyNameField | src/kernel.c:229 | the copy into the name field is CopyName |
| Kernel.Kernel.constructor | src/kernel.c:28-61 | zeroed tables with priority scheduling on, inheritance and preemption off, task 0xFF and LastRanTask {0xFF} |
| Kernel.Kernel.InitMutex | src/kernel.c:87-96 | ok exactly for an index in range; then lock is cleared and lockedBy is 0; otherwise nothing changes |
| Kernel.Kernel.InitSemaphore | src/kernel.c:98-105 | ok exactly for an index in range; then the count is stored; otherwise nothing changes (the corrected definition, see Findings) |
| Kernel.Kernel.InitRtos | src/kernel.c:108-118 | no tasks, every slot INVALID with pid 0 |
| Kernel.Kernel.RtosScheduler | src/kernel.c:128-181 | the pick and LastRanTask are PriorityStep in priority mode; otherwise the pick is RoundRobinStep from the previous task |
| Kernel.Kernel.PriorityMode | src/kernel.c:134-169 | the pick and the new LastRanTask are PriorityStep |
| Kernel.Kernel.RoundRobinMode | src/kernel.c:170-180 | the pick is RoundRobinStep from the previous task |
| Kernel.HighestReady | src/kernel.c:141-149 | the loop computes Highest |
| Kernel.ScanLevel | src/kernel.c:155-166 | the loop finds Pick from (last + 1) mod taskCount |
| Kernel.NextReady | src/kernel.c:172-178 | the loop finds RoundRobinStep |
| Kernel.PriorityPick | src/kernel.c:137-167 | the two loops compute PriorityStep |
| Kernel.FirstLoop | src/kernel.c:141-151 | the first loop on a live table ends on the top level with a live slot, so the guard `task != 0xFF` always holds |
| Kernel.FirstLoopFacts | src/kernel.c:141-151 | what Highest leaves is TopLevel, at a slot below taskCount, with an eligible peer |
| Kernel.SecondLoop | src/kernel.c:152-166 | the second loop on the top level, from the LastRanTask entry of that level, picks what Pick gives |
| Kernel.PickIsStep | src/kernel.c:152-166 | the second loop's pick, recorded in LastRanTask, is PriorityStep |
| Kernel.Kernel.SystickIsr | src/kernel.c:420-438 | every slot below taskCount ticks, nothing else changes, and PendSV is requested when preemption is on |
| Kernel.Kernel.Yield | src/kernel.c:485-489 | PendSV is requested |
| Kernel.Kernel.SleepCall | src/kernel.c:491-499 | the state is Sleep of the old one, and PendSV is requested |
| Kernel.Kernel.LockCall | src/kernel.c:501-524 | the state is Lock of the old one; PendSV is requested exactly when the caller blocks |
| Kernel.Kernel.UnlockCall | src/kernel.c:526-551 | the state is Unlock of the old one |
| Kernel.Kernel.WaitCall | src/kernel.c:553-570 | the state is Wait of the old one; PendSV is requested exactly when the count was 0 |
| Kernel.Kernel.PostCall | src/kernel.c:572-591 | the state is Post of the old one |
| Kernel.Kernel.SignalStep | src/kernel.c:366-383 | the state is Signal of the old one |
| Kernel.Kernel.SetScheduler | src/kernel.c:605-609 | priority scheduling is on exactly when the argument is nonzero |
| Kernel.Kernel.SetPreemption | src/kernel.c:611-615 | preemption is on exactly when the argument is nonzero |
| Kernel.Kernel.SetInheritance | src/kernel.c:617-621 | priority inheritance is on exactly when the argument is nonzero |
| Kernel.Kernel.SwitchTask | src/kernel.c:475-482 | taskCurrent is the scheduler's pick; psp is its saved sp and the attribute words carry its SRD mask |
| Kernel.Kernel.PendSvIsr | src/kernel.c:446-462 | saves psp in the old task's sp, then switches to the scheduler's pick with its sp and SRD mask |
| Kernel.Kernel.CreateThread | src/kernel.c:201-265 | fails with nothing changed exactly when the table is full or the pid is taken; otherwise mallocs the stack and fills slot taskCount READY with pid, priority, name, stack, size and the window on a no-access mask, pushes the frame and increments taskCount |
| Kernel.Kernel.Spawn | src/kernel.c:218-261 | the heap is Malloc of the stack size, and the slot is filled, with its stack top from StackRoundUp (the corrected rounding, see Left out), unless the window faults |
| Kernel.Kernel.FillSlot | src/kernel.c:222-260 | the state is Create of the old one, and the frame is stored |
| Kernel.Kernel.KillThread | src/kernel.c:333-416 | with no live match nothing changes; otherwise frees the stack and the allocation with the corrected free (see Left out) and tears the first live match down |
| Kernel.Kernel.LeaveQueueStep | src/kernel.c:348-384 | the state is LeaveQueue of the old one |
| Kernel.Kernel.UnqueueStep | src/kernel.c:348-364 | the state is Unqueue of the old one |
| Kernel.Kernel.ReleaseStep | src/kernel.c:386-403 | the state is Release of the old one |
| Kernel.Kernel.RestartCall | src/kernel.c:672-730 | nothing changes exactly when the first match is missing or not STOPPED; otherwise mallocs a stack of the old size and rebuilds the task |
| Kernel.Kernel.Revive | src/kernel.c:686-715 | the heap is Malloc of the old size, and the slot is rebuilt, with its stack top from StackRoundUp (the corrected rounding, see Left out), unless the window faults |
| Kernel.Kernel.RefillSlot | src/kernel.c:688-717 | the state is Restart of the old one, and the frame is stored |
| Kernel.Kernel.PidOf | src/kernel.c:623-655 | found exactly when a slot has the name; the text is "PID not found.\n" or "PID: " with the pid's 16-bit decimal digits and a newline |
| Kernel.Kernel.MallocCall | src/kernel.c:593-602 | the heap is Malloc of the 16-bit size; unless the window faults, the caller records the address and its widened mask, and the attribute words carry it |
| Kernel.InitSemaphoreAsWritten | src/kernel.c:98-105 | the store keeps the length of the memory it writes |
| Kernel.StackTopOverrunsBlock | src/kernel.c:218-219 | for a request of 1 to 511 bytes served by a 512-byte block, the stack top as written is the block address + 1020, past the end of the block |
| Kernel.StackTopInGrant | src/kernel.c:218-219 | with StackRoundUp the stack top of every granted stack lies above its base and inside the blocks granted for it |
| Kernel.InitSemaphoreStoresPastTable | src/kernel.c:100-103 | for index 3 the result is false and the table is intact, yet the record after the table is overwritten |

## Left out

- The sizes that `kernel.h` defines. `kernel.h` is not part of this model.
  The constants are twelve tasks (the comment at `src/kernel.c:140`), one
  mutex, three semaphores, queues two entries deep and 16-character names.
- UART output. The model drops `putsUart0` in `StoreAllocation`,
  `addSramAccessWindow`, `KillThread`, `pendSvIsr` and restart. `pidof`
  returns its message as a value.
- `getsUart0`, which reads the UART, and `getFieldCount`, which only
  returns `fieldCount`. `ParseFields` states that value.
- Hardware registers. The model leaves out the SysTick setup of
  `initRtos`, the NVIC PendSV bit (a `pendSvRequested` flag), the MPU fault
  status check of `pendSvIsr` and reboot (case 12).
- Register pushes and pops, the process stack pointer and the privilege
  bits of `startRtos` and the `SVC` wrappers. `psp` is one field.
- `PIDgetter`, which reads `tcb[taskCurrent].pid`.
- `svCallIsr`'s dispatch. Each case is a method of its own, and the
  argument the case reads through `psp` is that method's parameter.
- Priority inheritance. It is only a flag. `setThreadPriority` issues
  `SVC #15`, which no case handles.
- The MPU region setup functions of `mm.c`.
- Concurrency. Each trap and each tick is one atomic step.
- InitSemaphore: for an index of 3 or more the C code stores past the
  semaphore table. The method models the corrected code, and
  `InitSemaphoreAsWritten` shows the store past the table.
- LockCall: the `int8_t` index is required to name an entry of the
  table, and the wait queue is required to have room. The C code appends
  past the queue array otherwise.
- UnlockCall: the `int8_t` index is required to name an entry of the table.
- WaitCall: the `int8_t` index is required to name an entry of the
  table, and the wait queue is required to have room, as for `LockCall`.
- PostCall: the `int8_t` index is required to name an entry of the table.
- SleepCall: taskCurrent is required to name a live task. In the C code
  it always does after `startRtos`. The same holds for `LockCall`,
  `WaitCall` and `MallocCall`.
- InitRtos: requires the wait queues to be empty. `initRtos` does not
  clear them, and a queued task would outlive its slot.
- RtosScheduler: requires, in priority mode, a READY task of priority
  below 16, and in round-robin mode some READY task. The idle task
  guarantees both. Without it, the C priority mode indexes
  `LastRanTask[16]` past its array, and the round-robin loop never ends.
- KillThread: requires the slot it tears down to be live. A kill of pid 0
  matches a free slot, whose pid is 0 (`KillZeroHitsFreeSlot`), and that
  case is outside the model.
- KillThread: the C code reads one 32-bit argument as both a pid and a
  pointer to a name. The model takes the pid and the name as two
  parameters. `RestartCall` and `PidOf` take theirs the same way.
- KillThread: frees with `FreeAndCompact` where `src/kernel.c:345-346` call
  freeToHeap twice. In the C code the second call, on an Allocation that
  is NULL, finds the record the first call zeroed and removes it as well,
  so the last counted record drops out of the search (`KillFreesTwice`).
  The model does not promise that behaviour.
- CreateThread: the stack top comes from `StackRoundUp` where
  `src/kernel.c:219` uses `RoundUp`. For a stack of 1 to 511 bytes the C
  top lies 512 bytes past the 512-byte block (`StackTopOverrunsBlock`);
  the model does not promise that top.
- Spawn: the same `StackRoundUp` correction as CreateThread.
- RestartCall: the stack top comes from `StackRoundUp` where
  `src/kernel.c:689` uses `RoundUp`, with the same overrun for a stack of
  1 to 511 bytes in the C code.
- Revive: the same `StackRoundUp` correction as RestartCall.
- PidOf: the store of 0 into the caller's R0 when no task has the name.
- CreateThread: requires the name to fit the 16-character field, since
  `StringCopy` writes past it otherwise.
- RestartCall: when the window faults, the model leaves the tables as they
  were. The C code has already written sp, spInit, BaseAddress and ticks
  of the slot by then, and never returns.
- CreateThread: when the window faults, the model leaves the tables as they
  were. The C code has already written the new slot's state, pid, sp,
  spInit, priority and name by then, and never returns.
- MallocCall: when the window faults, the model leaves the tables as they
  were. The C code has already stored the address in the caller's
  Allocation by then, and never returns.
- AddWindow: `None` stands for the usage-fault halt. Outside the five
  regions SRSize stays 0, the division that computes StartSR traps (initHw
  enables the divide-by-zero trap), and usageFaultIsr spins forever. The
  model drops the `error...` message of addSramAccessWindow and the UART
  message of usageFaultIsr; `src/faults.c` is not part of this model.
- PushInitialFrame: the seventeen `*(--p) = ...` statements of
  createThread and restart are written as one loop over the table
  `InitialFrame`.
- UserData.ParseFields: the C code counts every field but has room for
  five. The model records the first five and writes nothing for later
  ones, where the C code writes past both arrays.
- IsInteger: the string is required to be shorter than 256 characters,
  the range of its `uint8_t` index.
- ReverseStr: requires len of at least 1. For len 0, `end` wraps to
  0xFFFFFFFF.
- IntToStr: the destination is required to hold the digits and the NUL.
- IntToHex: the destination is required to hold nine characters.
- StringCopy: the destination is required to hold the copy and the NUL.
- ZeroBlockGrant: states what the code does as written. The `uint8_t`
  block count of a request of 261500 bytes wraps to 0.
- StackTopInGrant: only for requests below 261121 bytes. Above that the
  `uint8_t` block count of mallocFromHeap wraps, as ZeroBlockGrant shows.

## Findings

| source | as written | input that shows it | evidently intended | confidence | as-written member | corrected member |
|---|---|---|---|---|---|---|
| src/kernel.c:100-103 | the count is stored whatever the bounds check returned: the `if (ok)` is missing before the block | `initSemaphore(3, c)` returns false and overwrites the memory after `semaphores[2]` | store only when `ok` | high (reading of the code; not executed) | Kernel.InitSemaphoreAsWritten, Kernel.InitSemaphoreStoresPastTable | Kernel.Kernel.InitSemaphore |
| src/kernel.c:218-219 | the stack top is the block address + RoundUp(stackBytes) - 4, and RoundUp gives 1024 for any count below 512 other than 0, although mallocFromHeap serves such a request with a 512-byte block | `createThread` with stackBytes 256 on an empty heap gets the block at 0x20001000, and its first stack pointer is 0x200013FC, inside the next block | round the way the allocator does: 512 for a small request | high (reading of the code; not executed) | MemoryManager.RoundUp, Kernel.StackTopOverrunsBlock | MemoryManager.StackRoundUp, Kernel.StackTopInGrant |
| src/kernel.c:345-346 | KillThread also frees its Allocation, which is NULL for a task that never called malloc, and freeToHeap(NULL) matches the record the first free has just zeroed | two 100-byte stacks on an empty heap, kill the first task: count goes from 2 to 0, and the second stack's record is out of the search with its block marked | free only what was allocated, which the compacting free gives, since it leaves no zeroed record inside count | high (reading of the code; not executed) | HeapProperties.KillFreesTwice | HeapProperties.KillCompactingFreesOnce, MemoryManager.Heap.FreeAndCompact |
| mm.c:171-175 | the record is zeroed in place and `count` goes down, so the last counted record drops out of the search | allocate twice, free the first address, then free the second: the second free finds nothing and its block stays marked used | move the last record into the hole before lowering `count` | high (reading of the code; not executed) | MemoryManager.Free, HeapProperties.FreeLosesLastRecord | MemoryManager.FreeCompacting, HeapProperties.FreeCompactingKeepsOthers |
