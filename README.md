# Pintos process, file and synchronisation bookkeeping in Dafny

This project models the bookkeeping core of a teaching Pintos kernel (the
PKU-OS variant, with the TDIU16 user-program extensions):

- the global **process directory** (`userprog/plist.c`): 255 optional process
  records indexed by pid, a free-slot count and a cursor to a free slot;
- the per-process **file-descriptor table** (`userprog/flist.c`): 18 slots,
  of which descriptors 0 and 1 are reserved for the console;
- the **descriptor rules** of the system calls (`userprog/syscall.c`):
  `fd_is_valid`, `open`, `close`, `filesize`, `seek` with its clamp,
  `tell`, `create` with its name-length check, and `exit`;
- the **process lifecycle** of `userprog/process.c`:
  - `process_exit` records a status;
  - `process_wait` collects a child;
  - `process_cleanup` marks the caller dead, orphans its children, signals its
    waiter, sweeps orphaned records and closes its files;
  - `process_execute` and `start_process` pass a result handshake between them.
- **semaphores, locks with priority donation and condition variables**
  (`threads/synch.c`);
- the **17.14 fixed-point arithmetic** of `threads/fixed_point.h` and
  `threads/utils.c`.

Modules follow the source files:

- `Wrappers` holds `Option`.
- `CInt` holds C's truncating division and the 32-bit narrowing.
- `FixedPoint` and `FpUtils` model `fixed_point.h` and `utils.c`.
- `OrderedLists` gives `list_insert_ordered`, `list_sort`, `list_max` and
  `list_remove` of the Pintos list library, over an integer key. Every
  comparator here has the form `key(a) > key(b)`.
- `Slots` counts the empty slots of a table.
- `FList`, `PList`, `Syscall`, `Process` and `Synch` model their source files.
- `HolderlessWait` runs the lock operations of `Synch` into a state where
  a thread waits for a lock without a holder, and through `lock_acquire`
  from there.

### How the state is represented

The two tables are classes over an `array`, because the source updates them
in place. Their methods are proved against the array's old and new contents.

A process record is a datatype value held in its slot, and a field write
replaces the value in the slot. The two semaphores inside a record are kept
as their counters:

- `waitGate` is `sema_p_wait`;
- `fieldGuard` is `sema_p`.

The synchronisation primitives are one class `Sync`, whose maps hold:

- the threads: priority, base priority, awaited lock, held locks;
- the locks: holder, and `priority_current`;
- the semaphores: value, and the waiting threads;
- the condition variables: their `semaphore_elem` lists.

A `sema_down` that would block is a step that queues the caller and reports
"not done". The woken thread runs the step again, as the `while` loop of
`sema_down` does.

The donation walk of `lock_acquire` is proved equal to the ghost function
`Donate`. `DonateEffect` and its corollaries state what `Donate` does. The
walk follows the waits-for chain from the caller: from a thread to the
holder of the lock it waits for. `ChainEnds` says the walk stops within a
given number of steps, at a thread that waits for nothing or at an awaited
lock without a holder. The loop as written cannot stop at such a lock (see
"## Findings"); the model's walk does.

### Where the model follows the code rather than the comments

- `exit` (`src/userprog/syscall.c:237`) calls `process_exit ()` with no
  argument, but the prototype `void process_exit (int status)` in
  `src/userprog/process.h:11`, included at `src/userprog/syscall.c:13`,
  takes one. A C compiler must reject a call with the wrong number of
  arguments against a prototype. The model chooses to give `SysExit` the
  value the callee receives as a separate parameter `received`, not the
  `status` passed to `exit`.
- `start_process` (`src/userprog/process.c:208`) calls `process_create`
  with four arguments, but the prototype in `src/userprog/plist.h:68` has
  three parameters. A C compiler must reject a call with the wrong number
  of arguments against a prototype. The model takes the call as made
  with the three declared arguments and drops the fourth, `executable`.
- The parent pid field is an `unsigned char`, so a stored parent pid is
  reduced modulo 256, and a parent of -1 becomes 255.
- `plist_get_proc_from_tid` answers 255 for tid 1.
- `lock_release` calls `list_max` with the `>` comparators. Under the list
  library's definition, which keeps the first element `e` with
  `less(max, e)`, this selects a held lock of lowest `priority_current`. It
  then selects that lock's waiter of lowest priority. The model does exactly
  this (`RestoredPriority`, `ReleaseConsultsLowest`), not the "highest" the
  comments describe.
- `priority_compare` (thread.c) is not part of this model. It is taken to be
  `a->priority > b->priority`, like the two comparators of `synch.c`.
- `strlcpy_first_word` is not part of this model. `FirstWord` takes it to
  copy the first blank-delimited word of the name, cut to the 15
  characters the record's name buffer holds.
- `file_pointer_insert`, `file_pointer_get` and `file_pointer_remove`
  (`src/userprog/syscall.c:637-664`) only forward to `flist_insert`,
  `flist_find` and `flist_remove` on the current thread's table. The
  system calls therefore call `FileTable.Insert`, `Find` and `Remove` on
  the table passed in.
- `create` calls `strlen (name)` before testing `name == NULL`, so the
  NULL test can never decide anything. The name is modelled as a string.
- `lock_release` after a `lock_try_acquire` calls `list_remove` on a lock
  that was never put into `locks_held`. That is undefined in C; the model
  treats it as a removal that finds nothing (`RemoveFirst` of an absent
  element).

## Model

| member | source | states |
|---|---|---|
| CInt.Div | src/threads/fixed_point.h:11 | C division truncates toward zero: the remainder is smaller than the divisor in magnitude and has the dividend's sign |
| CInt.DivUnique | src/threads/fixed_point.h:11 | any quotient with such a remainder is the C quotient |
| CInt.DivNeg | src/threads/fixed_point.h:12-14 | negating the dividend negates the truncating quotient |
| CInt.Wrap32 | src/threads/utils.c:14-17 | returning an `int64_t` value as `int` gives a 32-bit value congruent to it modulo 2^32, and the same value when it already fits |
| CInt.ProductFitsInt64 | src/threads/fixed_point.h:19 | the widened product of two 32-bit operands never overflows 64 bits |
| FixedPoint.FactorIsShift | src/threads/fixed_point.h:6-9 | the literal FACTOR 16384 equals `1 << BITS` |
| FixedPoint.TowardZeroTruncates | src/threads/fixed_point.h:11 | the dropped fraction is under one unit and lies on the value's own side of zero |
| FixedPoint.TowardZeroIsNotFloor | src/threads/fixed_point.h:11 | for -1 the macro gives 0, where floor division gives -1 |
| FixedPoint.TowardZeroRoundTrip | src/threads/fixed_point.h:10-11 | converting an integer to fixed point and back by truncation returns it |
| FixedPoint.NearestRounds | src/threads/fixed_point.h:12-14 | rounding lands within half a unit and rounds an exact half away from zero |
| FixedPoint.NearestIsOdd | src/threads/fixed_point.h:12-14 | rounding commutes with negation |
| FixedPoint.NearestRoundTrip | src/threads/fixed_point.h:10-14 | converting an integer to fixed point and back by rounding returns it |
| FixedPoint.AddIntIsAddOfConverted | src/threads/fixed_point.h:15-18 | adding or subtracting an integer is adding or subtracting its fixed-point conversion |
| FixedPoint.MulDivIntAreOfConverted | src/threads/fixed_point.h:19-22 | multiplying or dividing by an integer equals the general multiply or divide by its conversion |
| FixedPoint.MultiplyByOne | src/threads/fixed_point.h:19 | multiplying by fixed-point one is the identity, and the widened product of a 32-bit value fits 64 bits |
| FixedPoint.DivideByOne | src/threads/fixed_point.h:21 | dividing by fixed-point one is the identity, and the widened dividend fits 64 bits |
| FpUtils.AgreesWithMacros | src/threads/utils.c:4-33 | the utils.c functions use the same factor as the macros and agree with them, except that multiply and divide narrow to 32 bits |
| FpUtils.MulMatchesMacroInRange | src/threads/utils.c:14-17 | when the macro's product fits 32 bits, `fp_mul` equals it |
| FpUtils.FromIntScales | src/threads/utils.c:4-7 | `fp_from_int` multiplies by 16384 and does not shrink a non-negative value |
| FpUtils.RoundedRoundTrip | src/threads/utils.c:24-33 | rounding a converted integer returns the integer |
| FpUtils.RoundedIsOddAndNearest | src/threads/utils.c:24-33 | `fp_to_int_rounded` is symmetric under negation, is within half a unit, and rounds halves away from zero |
| FpUtils.MulByOne | src/threads/utils.c:14-17 | `fp_mul` by one is the identity on 32-bit values |
| FpUtils.DivByOne | src/threads/utils.c:19-22 | `fp_div` by one is the identity on 32-bit values |
| FpUtils.MulWrapsOutOfRange | src/threads/utils.c:14-17 | a product too large for 32 bits wraps: 65536.0 times 65536.0 gives 0 where the macro gives 2^46 |
| OrderedLists.InsertOrdered | src/threads/synch.c:263 | the result holds the old elements plus the new one |
| OrderedLists.InsertOrderedSorted | src/threads/synch.c:398 | inserting into a list in descending key order keeps it in descending order |
| OrderedLists.Sort | src/threads/synch.c:123 | the sorted list is a permutation, in descending key order |
| OrderedLists.SortFrontIsMaximum | src/threads/synch.c:123-124 | the front after sorting is an element of the list with the largest key |
| OrderedLists.PopFront | src/threads/synch.c:124 | popping the front of a sorted list leaves the rest sorted and loses nothing else |
| OrderedLists.ListMaxIsMinimum | src/threads/synch.c:316-319 | `list_max` with a `>` comparator returns an element of the list with the smallest key |
| OrderedLists.RemoveFirst | src/threads/synch.c:306 | removing a lock from a list takes out one occurrence and leaves the list unchanged when it is absent |
| FList.FileTable.Init | src/userprog/flist.c:11-20 | every slot is empty and 16 places are open |
| FList.FileTable.Insert | src/userprog/flist.c:28-52 | a full table answers -1 unchanged. Otherwise the value goes into the first free slot scanning from `18 - open places` cyclically over 2..17. Exactly that slot changes and the count drops by one. On a packed table the descriptor is the next one in order |
| FList.FileTable.Occupy | src/userprog/flist.c:47-49 | the value goes into the given free slot, nothing else changes, and one place fewer is open |
| FList.FileTable.Find | src/userprog/flist.c:60-67 | out-of-range keys and the reserved descriptors find nothing; otherwise the slot's contents |
| FList.FileTable.Remove | src/userprog/flist.c:75-86 | the occupied slot is cleared and its value returned with the count raised; an empty or invalid key changes nothing |
| FList.FileTable.Vacate | src/userprog/flist.c:79-82 | the given occupied slot is cleared, nothing else changes, and one more place is open |
| FList.FileTable.ForEach | src/userprog/flist.c:92-96 | the callback receives each descriptor 2..17 in order with its slot and `aux`, empty slots included |
| FList.FileTable.RemoveIf | src/userprog/flist.c:103-113 | exactly the occupied slots whose file satisfies the predicate are cleared |
| FList.FillFromEmpty | src/userprog/flist.c:28-52 | on a fresh table the inserts return descriptors 2, 3, 4, ... and fill those slots |
| Syscall.FdIsValid | src/userprog/syscall.c:602-630 | fd 0 is valid only for reads and fd 1 only for writes; fds from 2 up are valid for every operation; negatives and unknown types are never valid |
| Syscall.TableDescriptorsAreValid | src/userprog/syscall.c:602-630 | a descriptor that finds a file in a valid table is valid for every operation |
| Syscall.Open | src/userprog/syscall.c:306-327 | a missing file gives -1; a full table gives -1 and closes the file again; otherwise the new descriptor (never 0 or 1) now holds the file |
| Syscall.Close | src/userprog/syscall.c:501-512 | a descriptor not valid for closing is ignored; otherwise the slot is removed and its file closed |
| Syscall.CloseTwice | src/userprog/syscall.c:501-512 | closing the same descriptor again closes nothing |
| Syscall.Filesize | src/userprog/syscall.c:333-351 | -1 for a bad or empty descriptor, else the file's length |
| Syscall.Seek | src/userprog/syscall.c:449-474 | a bad or empty descriptor does nothing; otherwise the position is clamped to the file's length |
| Syscall.Tell | src/userprog/syscall.c:480-495 | (unsigned) -1 for a bad or empty descriptor, otherwise the position as an unsigned value |
| Syscall.Create | src/userprog/syscall.c:279-285 | names over 14 characters fail without reaching the file system; otherwise the file system's answer |
| Syscall.CloseAll | src/userprog/flist.c:119-123 | every open file is closed in descriptor order and the table ends empty with 16 open places |
| Syscall.CloseNext | src/userprog/flist.c:121-122 | closing descriptor `i` empties its slot and appends its file, if any, to those closed so far; the slots above stay as they were |
| PList.FirstWord | src/userprog/plist.c:20-40 | the copy is a prefix of the name, at most 15 characters, without blanks, ending where the name's first word ends |
| PList.ProcessCreate | src/userprog/plist.c:20-40 | a failed allocation gives NULL. Otherwise the record is alive, with a live parent, exit status -1, a closed wait gate, an open field guard, the given tid and the parent pid modulo 256 |
| PList.UnknownParentIs255 | src/userprog/plist.h:49 | a parent pid of -1 is stored as 255 |
| PList.ProcessList.Init | src/userprog/plist.c:59-67 | every slot empty, 255 open places, cursor 0 |
| PList.ProcessList.Insert | src/userprog/plist.c:76-106 | a full directory answers -1 unchanged. Otherwise the record goes into the slot under the cursor, whose pid is returned, and the count drops. The cursor moves cyclically to the next free slot, past only occupied slots, or becomes -1 when the directory fills |
| PList.ProcessList.Find | src/userprog/plist.c:114-124 | pids outside 0..254 find nothing; otherwise the slot's record |
| PList.ProcessList.Remove | src/userprog/plist.c:132-145 | an occupied slot is cleared, becomes the cursor and its record is returned; otherwise nothing changes |
| PList.ProcessList.GetProcFromTid | src/userprog/plist.c:175-191 | 255 for tid 1; otherwise the lowest pid whose record has the tid, or -1 when none does |
| PList.ProcessList.OpenSlot | src/userprog/plist.c:195-199 | -1 exactly when the directory is full, otherwise an empty slot |
| PList.ProcOfTidUnique | src/userprog/plist.c:175-191 | the tid lookup's answer is determined by the directory |
| PList.RefillAfterRemove | src/userprog/plist.c:76-145 | on a full directory, a removal followed by an insert reuses the removed pid |
| Process.ProcessExit | src/userprog/process.c:39-51 | the caller's record, if any, takes the status; nothing else changes |
| Process.ProcessWait | src/userprog/process.c:267-299 | -1 when the pid has no record or is not the caller's child; blocks while the child lives; otherwise the child's exit status, with its record removed |
| Process.WaitTwice | src/userprog/process.c:267-299 | after a wait returns, a second wait on the same pid returns -1 |
| Process.AfterExit | src/userprog/process.c:330-357 | a child of the dying process loses its live parent; the dying record is marked dead and its wait gate upped once; no other field changes |
| Process.MarkExited | src/userprog/process.c:330-357 | every slot becomes its AfterExit image, and the printed status is the record's exit status, or -1 without a record |
| Process.OrphanChildren | src/userprog/process.c:344-352 | every record whose parent is the dying pid has its parent marked dead; nothing else changes |
| Process.Orphaned | src/userprog/process.c:344-352 | only `parent_alive` changes, and only for children of the pid |
| Process.Swept | src/userprog/process.c:384-396 | a record with a dead parent is removed, alive or not; every other slot is kept |
| Process.SweepOrphans | src/userprog/process.c:381-397 | exactly the orphaned records are removed; no remaining record has a dead parent; the cursor ends at the last slot removed |
| Process.ProcessCleanup | src/userprog/process.c:313-403 | the directory becomes the sweep of the exit marking, the status printed is the record's, and every open file is closed |
| Process.CleanupRemovesChildren | src/userprog/process.c:313-403 | a child of the dying process never survives the cleanup |
| Process.SysExit | src/userprog/syscall.c:234-240 | the status printed is the value `process_exit` receives, not the argument of `exit`, or -1 without a record |
| Process.StartProcess | src/userprog/process.c:143-255 | a failed load signals failure and changes nothing. A successful load with allocation inserts the record and signals success with its pid, or -1 on a full directory. A failed allocation exits without signalling |
| Process.ProcessExecute | src/userprog/process.c:85-135 | -1 when the thread cannot be created or the load failed; the child's pid on success; no answer when the child never signals |
| Process.Exec | src/userprog/process.c:85-135 | as written, exec gives no answer exactly when the program loads but its record cannot be allocated |
| Process.ExecHangsOnAllocationFailure | src/userprog/process.c:208-224 | a loaded child whose allocation failed leaves the parent without an answer |
| Process.StartProcessCorrected | src/userprog/process.c:143-255 | with the allocation failure reported as a load failure, the parent is always signalled |
| Process.ExecCorrected | src/userprog/process.c:85-135 | over the corrected child, exec always answers, and -1 exactly when some step failed |
| Synch.ComparatorsAreStrictOrders | src/threads/synch.c:444-465 | both comparators are irreflexive and transitive |
| Synch.FullyHeldChainEnds | src/threads/synch.c:226-245 | a chain the loop as written can walk, with every awaited lock held, is one on which the model's walk ends, and it never stops early there |
| Synch.ChainBoundUp | src/threads/synch.c:226-245 | a larger bound admits the same chain, with the same length |
| Synch.ChainHoldersCloser | src/threads/synch.c:226-245 | every holder the walk reaches has a strictly shorter chain left |
| Synch.ChainAcyclic | src/threads/synch.c:226-245 | a chain that ends never comes back to the thread it started from, so the caller itself is never raised |
| Synch.ChainLocksHeld | src/threads/synch.c:226-245 | each lock on the chain is held by a holder on the chain |
| Synch.DonateStep | src/threads/synch.c:228-246 | one pass of the walk changes priorities only, never a waits-for link or a holder |
| Synch.Sync.DonateOnce | src/threads/synch.c:230-245 | one pass of the donation loop leaves exactly the DonateStep state and moves on to the holder of the awaited lock |
| Synch.Donate | src/threads/synch.c:217-249 | the walk changes priorities only, never a waits-for link or a holder |
| Synch.DonateEffect | src/threads/synch.c:217-249 | each holder on the chain ends at the larger of its priority and the caller's, and every other thread keeps its priority. A lock on the chain takes the caller's priority as its copy exactly when its holder was below the caller; every other lock keeps its copy. Under MLFQS nothing changes |
| Synch.DonateThreads | src/threads/synch.c:230-234 | the threads' part of DonateEffect: holders on the chain are raised to the caller's priority, all other threads are unchanged |
| Synch.DonateLockCopies | src/threads/synch.c:230-237 | the locks' part of DonateEffect: a lock on the chain takes the caller's priority exactly when its holder was below it; all other locks are unchanged |
| Synch.DonateRaisesChain | src/threads/synch.c:217-249 | every holder reached ends with at least the caller's priority and no priority decreases |
| Synch.DonateMlfqsChangesNothing | src/threads/synch.c:230-239 | with the MLFQS scheduler the walk changes no state |
| Synch.DonateFirstLock | src/threads/synch.c:228-236 | when the first holder was below the caller, the awaited lock's copy ends equal to the caller's priority |
| Synch.WakeOne | src/threads/synch.c:118-126 | with waiters, a waiter of highest priority is woken and the rest stay sorted with nothing lost; without, nobody is woken |
| Synch.RestoredPriority | src/threads/synch.c:306-332 | no held lock left gives the base priority; MLFQS keeps the priority; otherwise the base, the old priority, or a waiter's priority above the base |
| Synch.ReleaseConsultsLowest | src/threads/synch.c:316-321 | the lock consulted has the lowest `priority_current` of those held. The priority is kept when that lock has no waiters. Otherwise it is exactly max(base, the priority of a waiter no higher than any other), hence at most max(base, any waiter's priority) |
| Synch.Sync.SemaInit | src/threads/synch.c:47-54 | the semaphore has the value and no waiters |
| Synch.Sync.SemaDown | src/threads/synch.c:63-80 | a positive value is decremented and the down completes; at 0 the caller is pushed on the front of the waiters |
| Synch.Sync.SemaTryDown | src/threads/synch.c:87-106 | a positive value is decremented with success; at 0 nothing changes and it fails |
| Synch.Sync.SemaUp | src/threads/synch.c:112-135 | the value goes up by exactly one and at most one waiter, chosen by WakeOne, is woken |
| Synch.Sync.SemaUpTwice | src/threads/synch.c:112-135 | two ups wake two waiters, when there are two, in descending priority order |
| Synch.UpN | src/threads/synch.c:112-135 | k sema_ups in a row raise the value by exactly k |
| Synch.UpOnce | src/threads/synch.c:112-135 | one up is one sema_up: the value rises by one and WakeOne's waiter leaves the list |
| Synch.UpNDrains | src/threads/synch.c:112-135 | ups never add a waiter: the waiters left are among those before |
| Synch.UpNShrinks | src/threads/synch.c:112-135 | k ups wake k waiters, or all of them when there are fewer |
| Synch.Sync.LockInit | src/threads/synch.c:189-197 | no holder, priority copy 0, semaphore at 1 |
| Synch.Sync.LockHeldByCurrentThread | src/threads/synch.c:338-344 | true exactly when the caller is the holder |
| Synch.Sync.DonatePriority | src/threads/synch.c:217-249 | the caller records the awaited lock and the walk leaves exactly the Donate state |
| Synch.Sync.FinishAcquire | src/threads/synch.c:254-264 | the caller holds the lock; the lock's copy is the caller's priority; the caller waits for nothing; the lock joins the held locks, keeping descending order |
| Synch.Sync.LockAcquireDown | src/threads/synch.c:251-264 | the whole new state is AcquireDownState. With a positive value the down completes: the lock has the caller as holder and its priority as copy, the caller waits for nothing and holds one lock more, and no other thread changes. At 0 the caller is pushed on the front of the lock's waiters and nothing else changes |
| Synch.Sync.LockAcquire | src/threads/synch.c:207-265 | the whole new state is AcquireState: the donation block when the lock was held, then the down. The acquire completes exactly when the lock's semaphore was positive. Then the caller holds the lock with its priority as copy, waits for nothing and holds one lock more, over the donated state. Otherwise threads and locks are exactly the donated state and the caller is queued first on the lock's semaphore. No other semaphore and no condition changes |
| Synch.Sync.AcquireDonation | src/threads/synch.c:217-249 | threads and locks become exactly the donated state, with the caller's priority and held locks kept; semaphores and conditions stay |
| Synch.Sync.LockTryAcquire | src/threads/synch.c:273-285 | on success only the holder and the semaphore value change; on failure nothing does |
| Synch.Sync.LockRelease | src/threads/synch.c:292-333 | the lock loses its holder and leaves the held locks; the caller's priority becomes RestoredPriority; the semaphore is upped |
| Synch.Sync.ReleaseBookkeeping | src/threads/synch.c:301-329 | before the up, the lock loses its holder, leaves the held locks and the caller takes RestoredPriority; semaphores and conditions are untouched |
| Synch.Sync.CondInit | src/threads/synch.c:357-363 | the condition has no waiters |
| Synch.Sync.CondWait | src/threads/synch.c:385-400 | a waiter at 0 with the caller's priority joins the waiters in descending order. The lock loses its holder and the caller's priority becomes RestoredPriority. The lock's semaphore gets exactly one sema_up, and the caller is the only waiter on its own semaphore. No other semaphore, thread or lock changes |
| Synch.Sync.CondEnqueue | src/threads/synch.c:395-398 | a new semaphore at 0 and the waiter joins the list in descending order, losing no waiter; threads and locks stay |
| Synch.Sync.ReleaseAndBlock | src/threads/synch.c:399-400 | the lock is released exactly as LockRelease does, and the caller becomes the only waiter on its semaphore at 0 |
| Synch.Sync.CondWaitResume | src/threads/synch.c:400-401 | the waiter's semaphore goes down by one. Threads, locks and semaphores are then exactly as lock_acquire leaves them from that point (AcquireState), and the condition lists are unchanged |
| Synch.Sync.CondSignal | src/threads/synch.c:412-424 | with no waiters nothing changes. Otherwise exactly the front waiter leaves the list, and its semaphore alone gets one sema_up; threads and locks stay. On a list in descending order the front has the highest priority and the rest stays in order |
| Synch.Sync.SignalFront | src/threads/synch.c:420-422 | the front waiter leaves the list and only its semaphore gets one sema_up; threads and locks stay |
| Synch.FrontIsHighest | src/threads/synch.c:420-421 | the front of a waiter list in descending order has the highest priority, and the rest stays in order |
| Synch.Sync.CondBroadcast | src/threads/synch.c:432-440 | the waiters end empty. Each semaphore ends in exactly the state of as many sema_ups as it has entries in the list; threads and locks stay |
| Synch.Sync.BroadcastStep | src/threads/synch.c:438-439 | after the signal the list is the waiters after position i. Each semaphore is in the state of as many sema_ups as it has entries among the first i + 1 |
| Synch.BroadcastUps | src/threads/synch.c:438-439 | one more up on the i-th waiter's semaphore, after the ups for the first i, gives the ups for the first i + 1 |
| HolderlessWait.HolderlessWaitFaults | src/threads/synch.c:226-245 | when thread 1 waits for lock 1, held by thread 2, which waits for lock 0 without a holder, no bound makes the chain one the loop as written can walk |
| HolderlessWait.ReleaseLeavesHolderlessWait | src/threads/synch.c:292-333 | after thread 1 releases lock 0 to the queued thread 2, thread 2 still records lock 0, which has no holder, and the chain of thread 1 waiting for lock 1 faults as written |
| HolderlessWait.DonateAcrossHolderlessWait | src/threads/synch.c:207-251 | from that state thread 1 acquires lock 1: the corrected walk raises thread 2 and lock 1's copy to 20, stops at lock 0, and queues thread 1 |

## Left out

- Blocking, the scheduler, the ready list, `thread_check_ready_list` and
  interrupt masking. The model is sequential, and a blocked step is one that
  reports "not done".
- The reader-writer lock around the process directory, and all concurrency.
  Each operation runs atomically.
- The program loader, stack set-up, `intr_frame` and page directories
  (`process_activate`). `StartProcess` takes the loader's answer as a
  parameter.
- The system-call dispatcher, user-pointer validation, `read`, `write`,
  `remove`, `halt`, `sleep` and `plist`: they are outside the bookkeeping core.
- The file system. File length, position and whether a create succeeds are
  parameters, and a closed file is reported rather than freed.
- `malloc`/`free` and `process_destroy`. Allocation success is a parameter
  (`allocOk`).
- Printing: `plist_print`, `process_print_list`, and the exit message, which
  is returned as a value instead.
- Contention on the record's field guard (`sema_p`). It is taken and given
  back within each call, so its counter is left unchanged.
- The semaphore self-test in `synch.c`.
- `process_wait` after the wait gate has been upped is one step. The model
  does not follow the waiting parent across the child's exit; it answers
  `Blocked` while the gate is 0.
- `FixedPoint` macros and `FpUtils` functions: integers are unbounded.
  Overflow of the 32-bit intermediate values in the non-widened macros
  (`INT_TO_FIXED`, `FIXED_ADD`, ...) is not modelled; only the narrowing of
  the `int64_t` results in `utils.c` is.
- `Synch.Sync.LockAcquire`: it takes the bound on the waits-for chain as a
  ghost parameter. On a cyclic chain the C loop never ends; the requires
  excludes that state. An awaited lock without a holder is not excluded:
  the walk stops there (see "## Findings").
- Priorities are taken to lie in 0..255. `priority_current` is an
  `unsigned char` (`src/threads/synch.h:26`), so a larger priority would be
  cut when it is copied into a lock. `thread.h`, which sets the priority
  range, is not part of this model.
- `Process.StartProcess`: "changes nothing" on the failure paths covers
  `start_process` up to its `thread_exit ()` (`src/userprog/process.c:223`
  and `:242`). `thread_exit` then runs `process_cleanup`
  (`src/userprog/process.c:301-303`), whose sweep can remove orphaned
  records; that tail is modelled separately as `ProcessCleanup`.
- `Synch.Sync.CondWait`: stops at the point the caller blocks; the part
  after the signal is `CondWaitResume`.

## Findings

| source | as written | input that shows it | evidently intended | confidence | as-written member | corrected member |
|---|---|---|---|---|---|---|
| src/userprog/process.c:208-224 | when `process_create` returns NULL, `start_process` calls `thread_exit ()` without `sema_up (&parameters->sema_start_p)` | the program loads and the record allocation fails: `Exec` with `threadCreated`, `loaded` true and `allocOk` false | the parent is told that the start failed, and `exec` returns -1 | not executed | Process.Exec | Process.ExecCorrected |
| src/threads/synch.c:226-245 | the loop reads `t->lock_waiting_for->holder->priority` without testing the holder. When the holder is NULL, that read goes through NULL, and the test at 244 then leaves `t` where it is, so the loop would not end | thread 1 (priority 20) holds lock 0; thread 2 (priority 10) holds lock 1 and is queued on lock 0; thread 1 releases lock 0, and thread 2 still records lock 0 before it runs; thread 1 then acquires lock 1 | the walk stops at an awaited lock without a holder | not executed | HolderlessWait.ReleaseLeavesHolderlessWait | HolderlessWait.DonateAcrossHolderlessWait |
