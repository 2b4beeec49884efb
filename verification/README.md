# Deadlock-detection ledger of the os8 teaching kernel

This project models, in Dafny, the per-process deadlock detector of the os8
kernel and the mutex syscalls that drive it:

- `DeadlockDetectorInner` keeps three tables of counters: `available[r]`,
  `allocation[t][r]` and `need[t][r]`. Rows are thread positions in the
  process's task table; columns are mutex ids.
- Two resizes grow (or, being `Vec::resize`, truncate) the thread axis and the
  resource axis.
- `request(tasks, tidx, rid)` bumps `need[tidx][rid]`. It then runs a Banker's-style
  search on column `rid` and rolls the bump back when some live task cannot finish.
- `allocate` and `free` commit an acquisition or a release.
- The syscall layer reuses the first free slot of the mutex, semaphore and condvar
  tables, grows the resource axis when a mutex is created, finds a thread's
  position by tid, and decodes the detection toggle.
- `sys_mutex_lock` consults `request` only when detection is on. It answers
  `SYSERR_DEADLOCK` on rejection, and calls `allocate` after the blocking acquire.
- `sys_mutex_unlock` calls `free` and never calls `request`.

Files:

- `options.dfy`: `Option`.
- `seqs.dfy`: `Vec::resize`, flag counting and masked sums.
- `safety.dfy`: the search loop of `request`, on one column.
- `detector.dfy`: the detector tables and their operations.
- `syscalls.dfy`: the syscall bookkeeping.
- `scenarios.dfy`: concrete detector states.

Counters are `nat`. Every u32 subtraction of the source is a precondition that the
cell is positive. Every index the source takes (a panic on failure) is a
precondition too.

The search is proved to be a decision procedure. Column `rid` ends with every live
task finished exactly when a Banker's safe sequence exists for that column: an
order of all live tasks in which each one's need fits into the free units plus
what the tasks before it release (`Safety.SearchDecidesSafety`,
`DeadlockDetection.RequestGrantedIffSafe`).

Points where the code departs from the textbook Banker's algorithm, or behaves in
a way a reader might not expect. The model follows the code in each:

- In the standard Banker's safety test, a thread qualifies only if its need fits
  the free units of every resource, and a finishing thread releases its whole
  allocation row. The code compares and adds only column `rid`
  (os8/src/sync/deadlock_detection.rs:65, 69). As a result, two threads that each
  hold one lock and ask for the other's are both granted
  (`Scenarios.CircularWaitAccepted`). The standard test would refuse the second
  request.
- The code admits the first qualifying slot in each round of its loop, and the
  model uses that first-fit order. A variant that admits every qualifying thread
  in one pass is not modelled. That it reaches the same verdict is the standard
  result, not proved here.
- `Vec::resize` truncates when given a smaller length. The two resizes can
  therefore shrink the tables, and the model truncates too.
- When `sys_mutex_create` reuses a freed id, it resets only `available[id]`. The
  `allocation` and `need` columns of that id keep their old cells, and the model
  keeps them.

## Model

| member | source | states |
|---|---|---|
| `DeadlockDetection.New` | os8/src/sync/deadlock_detection.rs:23-33 | a fresh detector is well formed, with no resource column and exactly one thread row |
| `DeadlockDetection.ResizeThreads` | os8/src/sync/deadlock_detection.rs:39-43 | both tables get exactly `n` rows; rows below the old count survive unchanged; added rows are zero rows as wide as `available`; `available` is untouched |
| `DeadlockDetection.ResizeResources` | os8/src/sync/deadlock_detection.rs:45-51 | `available` gets length `m`, keeping old entries and adding zeros; each row the zip pairs gets width `m`, keeping old cells and adding zeros; rows past the shorter table are untouched |
| `DeadlockDetection.ResizeThreadsWellFormed` | os8/src/sync/deadlock_detection.rs:39-43 | growing or shrinking the thread axis keeps the tables well formed |
| `DeadlockDetection.ResizeResourcesWellFormed` | os8/src/sync/deadlock_detection.rs:45-51 | resizing the resource axis of paired tables makes every row exactly as wide as `available` |
| `DeadlockDetection.ResizeCommute` | os8/src/sync/deadlock_detection.rs:39-51 | with paired tables, resizing threads then resources gives the same detector as resources then threads |
| `DeadlockDetection.InitialFinish` | os8/src/sync/deadlock_detection.rs:62 | a slot starts finished exactly when its task is `None` |
| `DeadlockDetection.Column` | os8/src/sync/deadlock_detection.rs:65-69 | the search reads column `rid` of a table, at live slots only |
| `Safety.FirstReady` | os8/src/sync/deadlock_detection.rs:64-65 | the scan returns the smallest unfinished slot whose need fits `work[rid]`, or nothing when there is none |
| `Seqs.CountFalseFlip` | os8/src/sync/deadlock_detection.rs:70 | finishing one slot lowers the number of unfinished slots by one, so the loop terminates |
| `Safety.Search` | os8/src/sync/deadlock_detection.rs:63-71 | the loop never un-finishes a slot; when it stops, every unfinished slot needs more than the final work; the final work is the initial work plus the allocations of the slots it finished |
| `Safety.SearchDecidesSafety` | os8/src/sync/deadlock_detection.rs:62-72 | every slot ends finished if and only if a Banker's safe sequence exists for the column |
| `DeadlockDetection.Request` | os8/src/sync/deadlock_detection.rs:53-79 | on refusal all three tables equal their values before the call (the rollback is exact); on grant only `need[tidx][rid]` changed, by one |
| `DeadlockDetection.RequestGrantedIffSafe` | os8/src/sync/deadlock_detection.rs:59-78 | `request` grants exactly when, after the bump, column `rid` still has a safe sequence of the live tasks |
| `DeadlockDetection.RequestColumnOnly` | os8/src/sync/deadlock_detection.rs:62-71 | the verdict depends only on which task slots are empty, column `rid` of `need` after the bump, column `rid` of `allocation`, and `available[rid]` |
| `DeadlockDetection.FindReady` | os8/src/sync/deadlock_detection.rs:64-68 | the imperative scan finds the first ready slot, or reports that none is ready |
| `DeadlockDetection.Round` | os8/src/sync/deadlock_detection.rs:63-71 | one loop round either stops with the search's own result, or finishes one more slot without changing the verdict |
| `DeadlockDetection.RequestLoop` | os8/src/sync/deadlock_detection.rs:53-79 | the loop as written returns the same verdict and tables as `Request` |
| `DeadlockDetection.Allocate` | os8/src/sync/deadlock_detection.rs:81-85 | `available[rid]` and `need[tidx][rid]` drop by one and `allocation[tidx][rid]` rises by one; nothing else changes; well-formedness is kept |
| `DeadlockDetection.Free` | os8/src/sync/deadlock_detection.rs:87-90 | `available[rid]` rises by one and `allocation[tidx][rid]` drops by one; `need` is untouched; well-formedness is kept |
| `DeadlockDetection.FreeUndoesAllocate` | os8/src/sync/deadlock_detection.rs:81-90 | `free` after `allocate` restores `available` and `allocation`; only the consumed need unit remains |
| `DeadlockDetection.AllocateUndoesFree` | os8/src/sync/deadlock_detection.rs:81-90 | `allocate` after `free` restores `available` and `allocation`, consuming one need unit |
| `DeadlockDetection.GrantedThenAllocateRestoresNeed` | os8/src/sync/deadlock_detection.rs:59-85 | a granted request followed by its `allocate` leaves `need` exactly as before the request |
| `DeadlockDetection.AllocateConserves` | os8/src/sync/deadlock_detection.rs:81-85 | `available[c] + Σ_t allocation[t][c]` is unchanged by `allocate`, for every resource `c` |
| `DeadlockDetection.FreeConserves` | os8/src/sync/deadlock_detection.rs:87-90 | `available[c] + Σ_t allocation[t][c]` is unchanged by `free`, for every resource `c` |
| `DeadlockDetection.ReplayConserves` | os8/src/sync/deadlock_detection.rs:53-90 | any run of requests, allocations and frees keeps the tables well formed and conserves every resource's units |
| `Syscalls.FirstNone` | os8/src/syscall/sync.rs:27-32 | the slot chosen is the first `None`, or the length when every slot is taken |
| `Syscalls.Place` | os8/src/syscall/sync.rs:27-39 | a creation fills the first free slot without changing the length, or pushes and returns the old length when none is free; no other slot changes |
| `Syscalls.MutexCreate` | os8/src/syscall/sync.rs:19-48 | the returned id indexes the new mutex table; `available` is as long as the table; `available[id]` is 1; other kept entries of `available` are unchanged; the rest of the process is untouched |
| `Syscalls.SemaphoreCreate` | os8/src/syscall/sync.rs:123-142 | the returned id is the first free slot, whose length is then kept, or the old length when every slot is taken and the table grows by one; that slot holds the new semaphore; every other slot and the rest of the process are unchanged |
| `Syscalls.CondvarCreate` | os8/src/syscall/sync.rs:163-182 | the returned id is the first free slot, whose length is then kept, or the old length when every slot is taken and the table grows by one; that slot holds the new condvar; every other slot and the rest of the process are unchanged |
| `Syscalls.MutexCreateConsistent` | os8/src/syscall/sync.rs:40-47 | after a mutex creation the detector is well formed and has one column per mutex slot |
| `Syscalls.FindTaskPos` | os8/src/syscall/sync.rs:50-58 | returns the smallest position holding a live task with that tid, or `None` when there is no such task |
| `Syscalls.EnableDeadlockDetect` | os8/src/syscall/sync.rs:204-221 | 0 and 1 set the flag to false and true and return 0; any other value returns `SYSERR_UNKNOWN` and changes nothing |
| `Syscalls.EnableLastWriteWins` | os8/src/syscall/sync.rs:208-220 | the toggle is an overwrite: after two calls the later accepted value decides the flag, and a rejected value keeps what the earlier call set |
| `Syscalls.CheckLock` | os8/src/syscall/sync.rs:82-90 | the lock is refused exactly when detection is on and `request` refuses, and then the process is unchanged; otherwise it proceeds at the thread's position; with detection on only `need[tidx][mid]` rose by one, and with it off nothing changed; `request` is called only when detection is on |
| `Syscalls.MutexLock` | os8/src/syscall/sync.rs:71-103 | `SYSERR_DEADLOCK` is returned exactly when detection is on and `request` refuses, and then the process is unchanged; otherwise the result is 0, and the process is `allocate` applied after the acquire: to the detector as `request` left it when detection is on, and to the untouched detector when it is off; `request` is called only when detection is on |
| `Syscalls.RejectedLockChangesNothing` | os8/src/syscall/sync.rs:86-90 | a refused lock happens only with detection on, and leaves the process, detector included, exactly as it was |
| `Syscalls.DisabledLockNeverRefuses` | os8/src/syscall/sync.rs:86-102 | with detection off, a lock returns 0 and its detector calls contain no `request` |
| `Syscalls.MutexUnlock` | os8/src/syscall/sync.rs:105-121 | returns 0 after exactly one `free` of this thread's position and lock; `request` is not called and `need` is untouched |
| `Syscalls.DisabledLockUnderflowsNeed` | os8/src/syscall/sync.rs:86-101 | with detection off, the first lock of a one-thread process gets past the check with `need[0][0] == 0`, so `allocate`'s decrement has no unit to take and the lock cannot complete even with an immediate acquire |
| `Syscalls.CheckLockBalanced` | os8/src/syscall/sync.rs:82-90 | corrected check: identical to the source with detection on; with detection off it records the pending need unit and proceeds |
| `Syscalls.MutexLockBalanced` | os8/src/syscall/sync.rs:71-103 | corrected lock: the same refusals as the source; identical to it whenever detection is on |
| `Syscalls.BalancedLockUnlockRoundTrip` | os8/src/syscall/sync.rs:71-121 | with the corrected path, when the lock's unit is free, the identity acquire meets `allocate`'s precondition in either mode; a lock that returns 0 leaves `need` as it was, and the matching unlock restores the process exactly |
| `Scenarios.SafeStateAccepted` | os8/src/sync/deadlock_detection.rs:53-79 | a thread holding one unit, with three free, is granted one more |
| `Scenarios.ContentionIsNotDeadlock` | os8/src/sync/deadlock_detection.rs:53-79 | asking for a lock another thread holds is granted: the requester will block, not be refused |
| `Scenarios.RelockRefused` | os8/src/sync/deadlock_detection.rs:53-79 | the only thread asking again for its own lock is refused, with the tables unchanged |
| `Scenarios.CircularWaitAccepted` | os8/src/sync/deadlock_detection.rs:65-69 | two threads each holding one lock and asking for the other's are both granted, because only the requested column is examined |

## Left out

- Blocking and waking are not modelled: `mutex.lock()`/`mutex.unlock()`, semaphore `up`/`down`, condvar `signal`/`wait`, `block_current_and_run_next`, and `sys_sleep` with its timer. The acquire inside `sys_mutex_lock` is an opaque parameter (`acquire: Process -> Process`). It stands for whatever happens to the process while the thread blocks.
- `sys_semaphore_up`, `sys_semaphore_down`, `sys_condvar_signal` and `sys_condvar_wait` are left out. They only fetch an object and call into the blocking primitives; the detector is not involved.
- `UPSafeCell`, `Arc` and `inner_exclusive_access` are left out. The process and the detector are plain values, and each syscall is one state transition.
- `current_process`, `current_task` and `get_tid_unchecked` are left out. The calling thread's tid is a parameter.
- The `pid` and the `debug!`/`error!` logging are left out.
- `DeadlockDetector::try_lock` is an empty stub and is left out.
- os8/src/task/deadlock_detection.rs is an unused duplicate struct with only constructors, so it is left out.
- os8/src/sync/mod.rs holds only re-exports, so it is left out.
- The thread-creation path that calls `resize_update_thread_cnt` is not part of this model. Its caller is not among the modelled files.
- The numeric values of `SYSERR_DEADLOCK` and `SYSERR_UNKNOWN` are defined in the syscall module root, which is not part of this model. They appear as the `SysRet` variants `SysErrDeadlock` and `SysErrUnknown`.
- Counters are unbounded, so a u32 overflow of an increment is not modelled. Each u32 decrement instead carries a precondition that the cell is at least 1.
- `Syscalls.MutexLock`: the thread position is computed before blocking and reused after it, as in the source. The model does not say what happens if that position shifts while the thread blocks; `acquire` is arbitrary, and `allocate`'s precondition is required of its result.

## Findings

| source | as written | input that shows it | evidently intended | confidence | as-written member | corrected member |
|---|---|---|---|---|---|---|
| os8/src/syscall/sync.rs:86-101 | with detection off, `request` is skipped, so `need[tidx][mid]` is never raised, yet `allocate` still runs `need[tidx][mid] -= 1` on a u32 | a process with one thread (tid 0) and detection off calls `sys_mutex_create`, then `sys_mutex_lock(0)`; `need[0][0]` is 0 when `allocate` runs, so the decrement underflows | the pending unit is recorded in `need` in both modes, so that `allocate` always consumes a unit that was added | medium, not executed | `Syscalls.DisabledLockUnderflowsNeed` | `Syscalls.MutexLockBalanced` |
