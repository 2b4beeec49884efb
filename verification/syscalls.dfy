/**
 * The syscall-side bookkeeping of the per-process synchronisation tables:
 * slot reuse in `sys_mutex_create`, `sys_semaphore_create` and
 * `sys_condvar_create`, the thread lookup `find_task_pos_by_tid`, the
 * detection toggle, and the order of detector calls in `sys_mutex_lock` and
 * `sys_mutex_unlock`. Blocking on the lock itself is an opaque step.
 */
module Syscalls {
  import opened Options
  import opened DeadlockDetection

  /** The two lock implementations `sys_mutex_create` chooses between. */
  datatype MutexKind = MutexSpin | MutexBlocking

  /** A semaphore as created: its initial resource count. */
  datatype Semaphore = Semaphore(count: nat)

  datatype Condvar = Condvar

  /** The user resources of a thread; only its `tid` matters here. */
  datatype TaskUserRes = TaskUserRes(tid: nat)

  /** A task control block; `res` is `None` once its user resources are released. */
  datatype Task = Task(res: Option<TaskUserRes>)

  /** The parts of a process control block the syscalls read and write. */
  datatype Process = Process(
    mutexList: seq<Option<MutexKind>>,
    semaphoreList: seq<Option<Semaphore>>,
    condvarList: seq<Option<Condvar>>,
    tasks: seq<Option<Task>>,
    detector: Detector,
    deadlockDetection: bool)

  /** A syscall's return value: a non-negative result, `SYSERR_DEADLOCK` or `SYSERR_UNKNOWN`. */
  datatype SysRet = Ret(value: nat) | SysErrDeadlock | SysErrUnknown

  /** A syscall's effect: the new process state, the return value, and the detector calls made, in order. */
  datatype Step = Step(proc: Process, ret: SysRet, calls: seq<DetectorCall>)

  // ---------------------------------------------------------------------------
  // Slot reuse

  /** `iter().enumerate().find(|(_, item)| item.is_none())`: the first free slot, or the length. */
  function FirstNone<T>(slots: seq<Option<T>>): (r: nat)
    ensures r <= |slots|
    ensures r < |slots| ==> slots[r].None?
    ensures forall j :: 0 <= j < r ==> slots[j].Some?
  {
    if |slots| == 0 then 0
    else if slots[0].None? then 0
    else 1 + FirstNone(slots[1..])
  }

  /** The table after a creation, and the index the new object got. */
  datatype Placed<T> = Placed(slots: seq<Option<T>>, id: nat)

  /**
   * Reuse the first free slot for `item`, or push it when every slot is taken.
   * The length grows only in the second case and no other slot changes.
   */
  function Place<T>(slots: seq<Option<T>>, item: T): (r: Placed<T>)
    ensures r.id <= |slots|
    ensures forall j :: 0 <= j < r.id ==> slots[j].Some?
    ensures r.id < |slots| ==> slots[r.id].None? && |r.slots| == |slots|
    ensures r.id == |slots| ==> |r.slots| == |slots| + 1
    ensures r.slots[r.id] == Some(item)
    ensures forall j :: 0 <= j < |slots| && j != r.id ==> r.slots[j] == slots[j]
  {
    var id := FirstNone(slots);
    if id < |slots| then Placed(slots[id := Some(item)], id)
    else Placed(slots + [Some(item)], |slots|)
  }

  /**
   * `sys_mutex_create(blocking)`: place the lock, grow the resource axis to the
   * new table length, and mark the lock's single unit available.
   */
  function MutexCreate(p: Process, blocking: bool): (r: Step)
    ensures r.ret.Ret? && r.ret.value < |r.proc.mutexList|
    ensures r.proc.mutexList == Place(p.mutexList, if blocking then MutexBlocking else MutexSpin).slots
    ensures r.ret.value == Place(p.mutexList, if blocking then MutexBlocking else MutexSpin).id
    ensures |r.proc.detector.available| == |r.proc.mutexList|
    ensures r.proc.detector.available[r.ret.value] == 1
    ensures forall c :: 0 <= c < |p.detector.available| && c < |r.proc.mutexList| && c != r.ret.value ==>
              r.proc.detector.available[c] == p.detector.available[c]
    ensures r.proc.detector.allocation == ResizeResources(p.detector, |r.proc.mutexList|).allocation
    ensures r.proc.detector.need == ResizeResources(p.detector, |r.proc.mutexList|).need
    ensures r.proc.(mutexList := p.mutexList, detector := p.detector) == p
    ensures r.calls == []
  {
    var placed := Place(p.mutexList, if blocking then MutexBlocking else MutexSpin);
    var len := |placed.slots|;
    var resized := ResizeResources(p.detector, len);
    var detector := resized.(available := resized.available[placed.id := 1]);
    Step(p.(mutexList := placed.slots, detector := detector), Ret(placed.id), [])
  }

  /** `sys_semaphore_create(res_count)`: place a semaphore; the detector is not involved. */
  function SemaphoreCreate(p: Process, resCount: nat): (r: Step)
    ensures r.ret.Ret? && r.ret.value <= |p.semaphoreList|
    ensures forall j :: 0 <= j < r.ret.value ==> p.semaphoreList[j].Some?
    ensures r.ret.value < |p.semaphoreList| ==>
              p.semaphoreList[r.ret.value].None? && |r.proc.semaphoreList| == |p.semaphoreList|
    ensures r.ret.value == |p.semaphoreList| ==> |r.proc.semaphoreList| == |p.semaphoreList| + 1
    ensures r.proc.semaphoreList[r.ret.value] == Some(Semaphore(resCount))
    ensures forall j :: 0 <= j < |p.semaphoreList| && j != r.ret.value ==>
              r.proc.semaphoreList[j] == p.semaphoreList[j]
    ensures r.proc.(semaphoreList := p.semaphoreList) == p
    ensures r.calls == []
  {
    var placed := Place(p.semaphoreList, Semaphore(resCount));
    Step(p.(semaphoreList := placed.slots), Ret(placed.id), [])
  }

  /** `sys_condvar_create`: place a condition variable; the detector is not involved. */
  function CondvarCreate(p: Process): (r: Step)
    ensures r.ret.Ret? && r.ret.value <= |p.condvarList|
    ensures forall j :: 0 <= j < r.ret.value ==> p.condvarList[j].Some?
    ensures r.ret.value < |p.condvarList| ==>
              p.condvarList[r.ret.value].None? && |r.proc.condvarList| == |p.condvarList|
    ensures r.ret.value == |p.condvarList| ==> |r.proc.condvarList| == |p.condvarList| + 1
    ensures r.proc.condvarList[r.ret.value] == Some(Condvar)
    ensures forall j :: 0 <= j < |p.condvarList| && j != r.ret.value ==>
              r.proc.condvarList[j] == p.condvarList[j]
    ensures r.proc.(condvarList := p.condvarList) == p
    ensures r.calls == []
  {
    var placed := Place(p.condvarList, Condvar);
    Step(p.(condvarList := placed.slots), Ret(placed.id), [])
  }

  // ---------------------------------------------------------------------------
  // Thread lookup and the toggle

  /** The slot holds a live task whose user resources carry `tid`. */
  predicate HasTid(t: Option<Task>, tid: nat) {
    t.Some? && t.value.res.Some? && t.value.res.value.tid == tid
  }

  /** `find_task_pos_by_tid`: the first position whose task carries `tid`. */
  function FindTaskPos(tasks: seq<Option<Task>>, tid: nat): (r: Option<nat>)
    ensures r.Some? ==> r.value < |tasks| && HasTid(tasks[r.value], tid)
    ensures r.Some? ==> forall j :: 0 <= j < r.value ==> !HasTid(tasks[j], tid)
    ensures r.None? ==> forall j :: 0 <= j < |tasks| ==> !HasTid(tasks[j], tid)
  {
    if |tasks| == 0 then None
    else if HasTid(tasks[0], tid) then Some(0)
    else match FindTaskPos(tasks[1..], tid)
      case None => None
      case Some(i) => Some(i + 1)
  }

  /** `sys_enable_deadlock_detect(enabled)`: only 0 and 1 are accepted. */
  function EnableDeadlockDetect(p: Process, enabled: nat): (r: Step)
    ensures r.calls == []
    ensures enabled <= 1 ==> r.ret == Ret(0) && r.proc == p.(deadlockDetection := enabled == 1)
    ensures enabled > 1 ==> r.ret == SysErrUnknown && r.proc == p
  {
    if enabled == 0 then Step(p.(deadlockDetection := false), Ret(0), [])
    else if enabled == 1 then Step(p.(deadlockDetection := true), Ret(0), [])
    else Step(p, SysErrUnknown, [])
  }

  /**
   * The toggle is a plain overwrite: of two calls the later accepted value wins,
   * and a rejected value leaves whatever the earlier call set.
   */
  lemma EnableLastWriteWins(p: Process, a: nat, b: nat)
    ensures b <= 1 ==> EnableDeadlockDetect(EnableDeadlockDetect(p, a).proc, b).proc == EnableDeadlockDetect(p, b).proc
    ensures b > 1 ==> EnableDeadlockDetect(EnableDeadlockDetect(p, a).proc, b).proc == EnableDeadlockDetect(p, a).proc
    ensures EnableDeadlockDetect(p, a).proc.deadlockDetection == (if a <= 1 then a == 1 else p.deadlockDetection)
  {
  }

  // ---------------------------------------------------------------------------
  // Lock and unlock

  /** What `sys_mutex_lock` unwraps and indexes before it may block. */
  predicate LockPre(p: Process, tid: nat, mid: nat) {
    && mid < |p.mutexList| && p.mutexList[mid].Some?
    && FindTaskPos(p.tasks, tid).Some?
    && (p.deadlockDetection ==> RequestPre(p.detector, p.tasks, FindTaskPos(p.tasks, tid).value, mid))
  }

  /** Outcome of the first critical section of `sys_mutex_lock`. */
  datatype LockCheck = Refused(proc: Process, calls: seq<DetectorCall>) | Proceed(proc: Process, tidx: nat, calls: seq<DetectorCall>)

  /** Up to the blocking acquire: consult `request` only when detection is on. */
  function CheckLock(p: Process, tid: nat, mid: nat): (r: LockCheck)
    requires LockPre(p, tid, mid)
    ensures var tidx := FindTaskPos(p.tasks, tid).value;
      (r.Refused? <==> p.deadlockDetection && !Request(p.detector, p.tasks, tidx, mid).granted)
    ensures r.Refused? ==> r.proc == p
    ensures r.calls == (if p.deadlockDetection then [RequestCall(FindTaskPos(p.tasks, tid).value, mid)] else [])
    ensures r.Proceed? ==> r.tidx == FindTaskPos(p.tasks, tid).value
    ensures r.Proceed? ==> r.proc == p.(detector := r.proc.detector)
    ensures r.Proceed? ==> r.proc.detector.available == p.detector.available
    ensures r.Proceed? ==> r.proc.detector.allocation == p.detector.allocation
    ensures r.Proceed? && p.deadlockDetection ==> CellDelta(p.detector.need, r.proc.detector.need, r.tidx, mid, 1)
    ensures r.Proceed? && !p.deadlockDetection ==> r.proc == p
  {
    var tidx := FindTaskPos(p.tasks, tid).value;
    if p.deadlockDetection then
      var v := Request(p.detector, p.tasks, tidx, mid);
      if v.granted then Proceed(p.(detector := v.detector), tidx, [RequestCall(tidx, mid)])
      else Refused(p.(detector := v.detector), [RequestCall(tidx, mid)])
    else Proceed(p, tidx, [])
  }

  /** The process state `allocate` needs when the blocked lock returns. */
  predicate CommitPre(p: Process, tid: nat, mid: nat, acquire: Process -> Process) {
    LockPre(p, tid, mid) &&
    (CheckLock(p, tid, mid).Proceed? ==>
       AllocatePre(acquire(CheckLock(p, tid, mid).proc).detector, CheckLock(p, tid, mid).tidx, mid))
  }

  /**
   * `sys_mutex_lock(mid)` as written. `acquire` is whatever the rest of the
   * system does to the process while this thread blocks in `mutex.lock()`;
   * afterwards the thread position found before blocking is used for `allocate`.
   */
  function MutexLock(p: Process, tid: nat, mid: nat, acquire: Process -> Process): (r: Step)
    requires CommitPre(p, tid, mid, acquire)
    ensures var tidx := FindTaskPos(p.tasks, tid).value;
      (r.ret == SysErrDeadlock <==> p.deadlockDetection && !Request(p.detector, p.tasks, tidx, mid).granted)
    ensures r.ret.SysErrDeadlock? ==> r.proc == p
    ensures r.ret != SysErrDeadlock ==> r.ret == Ret(0)
    ensures var tidx := FindTaskPos(p.tasks, tid).value;
      r.calls == (if p.deadlockDetection then [RequestCall(tidx, mid)] else [])
                 + (if r.ret == Ret(0) then [AllocateCall(tidx, mid)] else [])
    ensures !p.deadlockDetection ==>
              r.proc == acquire(p).(detector := Allocate(acquire(p).detector, FindTaskPos(p.tasks, tid).value, mid))
    ensures p.deadlockDetection && r.ret == Ret(0) ==>
              var tidx := FindTaskPos(p.tasks, tid).value;
              var q := p.(detector := Request(p.detector, p.tasks, tidx, mid).detector);
              r.proc == acquire(q).(detector := Allocate(acquire(q).detector, tidx, mid))
  {
    match CheckLock(p, tid, mid)
    case Refused(q, calls) => Step(q, SysErrDeadlock, calls)
    case Proceed(q, tidx, calls) =>
      var s := acquire(q);
      Step(s.(detector := Allocate(s.detector, tidx, mid)), Ret(0), calls + [AllocateCall(tidx, mid)])
  }

  /** What `sys_mutex_unlock` unwraps and indexes, and the u32 decrement of `free`. */
  predicate UnlockPre(p: Process, tid: nat, mid: nat) {
    && FindTaskPos(p.tasks, tid).Some?
    && mid < |p.mutexList| && p.mutexList[mid].Some?
    && FreePre(p.detector, FindTaskPos(p.tasks, tid).value, mid)
  }

  /** `sys_mutex_unlock(mid)`: one `free` before the lock is released; `request` is never consulted. */
  function MutexUnlock(p: Process, tid: nat, mid: nat): (r: Step)
    requires UnlockPre(p, tid, mid)
    ensures r.ret == Ret(0)
    ensures r.calls == [FreeCall(FindTaskPos(p.tasks, tid).value, mid)]
    ensures r.proc == p.(detector := Free(p.detector, FindTaskPos(p.tasks, tid).value, mid))
    ensures r.proc.detector.need == p.detector.need
  {
    var tidx := FindTaskPos(p.tasks, tid).value;
    Step(p.(detector := Free(p.detector, tidx, mid)), Ret(0), [FreeCall(tidx, mid)])
  }

  // ---------------------------------------------------------------------------
  // Process-level facts

  /** The detector is well formed and has one resource column per mutex slot. */
  predicate Consistent(p: Process) {
    WellFormed(p.detector) && |p.detector.available| == |p.mutexList|
  }

  /** Creating a mutex restores the column-per-slot correspondence from any paired detector. */
  lemma MutexCreateConsistent(p: Process, blocking: bool)
    requires |p.detector.allocation| == |p.detector.need|
    ensures Consistent(MutexCreate(p, blocking).proc)
  {
    var r := MutexCreate(p, blocking);
    ResizeResourcesWellFormed(p.detector, |r.proc.mutexList|);
  }

  /** A rejected lock leaves the whole process, detector included, exactly as it was. */
  lemma RejectedLockChangesNothing(p: Process, tid: nat, mid: nat, acquire: Process -> Process)
    requires CommitPre(p, tid, mid, acquire)
    requires MutexLock(p, tid, mid, acquire).ret == SysErrDeadlock
    ensures MutexLock(p, tid, mid, acquire).proc == p
    ensures p.deadlockDetection
  {
  }

  /** With detection off, a lock never reports a deadlock and never calls `request`. */
  lemma DisabledLockNeverRefuses(p: Process, tid: nat, mid: nat, acquire: Process -> Process)
    requires CommitPre(p, tid, mid, acquire) && !p.deadlockDetection
    ensures MutexLock(p, tid, mid, acquire).ret == Ret(0)
    ensures forall k :: 0 <= k < |MutexLock(p, tid, mid, acquire).calls| ==>
              !MutexLock(p, tid, mid, acquire).calls[k].RequestCall?
  {
  }

  // ---------------------------------------------------------------------------
  // The `need` underflow with detection off, and the balanced lock path

  /** A process with one live thread (tid 0), no synchronisation objects yet, detection off. */
  function OneThreadProcess(): (p: Process)
    ensures Consistent(p) && |p.tasks| == 1 && !p.deadlockDetection
  {
    Process([], [], [], [Some(Task(Some(TaskUserRes(0))))], New(), false)
  }

  /**
   * As written, with detection off nothing ever raises `need`, yet the lock path
   * still calls `allocate`, whose `need[tidx][mid] -= 1` then underflows: right
   * after creating its first mutex, an uncontended lock by the only thread cannot
   * meet `allocate`'s precondition.
   */
  lemma DisabledLockUnderflowsNeed()
    ensures var p := MutexCreate(OneThreadProcess(), true).proc;
      && LockPre(p, 0, 0)
      && CheckLock(p, 0, 0) == Proceed(p, 0, [])
      && p.detector.need[0][0] == 0
      && !AllocatePre(p.detector, 0, 0)
      && !CommitPre(p, 0, 0, q => q)
  {
    var p := MutexCreate(OneThreadProcess(), true).proc;
    assert p.mutexList == [Some(MutexBlocking)];
    assert FindTaskPos(p.tasks, 0) == Some(0);
    assert Paired(OneThreadProcess().detector) == 1;
  }

  /** The cell `request` (or its replacement) bumps exists. */
  predicate BumpPre(d: Detector, tidx: nat, rid: nat) {
    tidx < |d.need| && rid < |d.need[tidx]|
  }

  /** Lock preconditions for the balanced path: the bumped cell must exist in both modes. */
  predicate LockPreBalanced(p: Process, tid: nat, mid: nat) {
    && LockPre(p, tid, mid)
    && BumpPre(p.detector, FindTaskPos(p.tasks, tid).value, mid)
  }

  /**
   * Corrected first critical section: with detection on it is `CheckLock`; with
   * detection off it still records the pending unit in `need` (without running
   * the safety check), so the later `allocate` has a unit to consume.
   */
  function CheckLockBalanced(p: Process, tid: nat, mid: nat): (r: LockCheck)
    requires LockPreBalanced(p, tid, mid)
    ensures p.deadlockDetection ==> r == CheckLock(p, tid, mid)
    ensures !p.deadlockDetection ==> r.Proceed? && r.calls == []
    ensures r.Proceed? ==> r.tidx == FindTaskPos(p.tasks, tid).value
    ensures r.Proceed? ==> r.proc == p.(detector := r.proc.detector)
    ensures r.Proceed? ==> r.proc.detector.available == p.detector.available
    ensures r.Proceed? ==> r.proc.detector.allocation == p.detector.allocation
    ensures r.Proceed? ==> CellDelta(p.detector.need, r.proc.detector.need, r.tidx, mid, 1)
  {
    var tidx := FindTaskPos(p.tasks, tid).value;
    if p.deadlockDetection then CheckLock(p, tid, mid)
    else Proceed(p.(detector := p.detector.(need := IncCell(p.detector.need, tidx, mid))), tidx, [])
  }

  predicate CommitPreBalanced(p: Process, tid: nat, mid: nat, acquire: Process -> Process) {
    LockPreBalanced(p, tid, mid) &&
    (CheckLockBalanced(p, tid, mid).Proceed? ==>
       AllocatePre(acquire(CheckLockBalanced(p, tid, mid).proc).detector, CheckLockBalanced(p, tid, mid).tidx, mid))
  }

  /** Corrected `sys_mutex_lock`: as `MutexLock`, on top of `CheckLockBalanced`. */
  function MutexLockBalanced(p: Process, tid: nat, mid: nat, acquire: Process -> Process): (r: Step)
    requires CommitPreBalanced(p, tid, mid, acquire)
    ensures var tidx := FindTaskPos(p.tasks, tid).value;
      (r.ret == SysErrDeadlock <==> p.deadlockDetection && !Request(p.detector, p.tasks, tidx, mid).granted)
    ensures r.ret.SysErrDeadlock? ==> r.proc == p
    ensures r.ret != SysErrDeadlock ==> r.ret == Ret(0)
    ensures p.deadlockDetection ==> r == MutexLock(p, tid, mid, acquire)
  {
    match CheckLockBalanced(p, tid, mid)
    case Refused(q, calls) => Step(q, SysErrDeadlock, calls)
    case Proceed(q, tidx, calls) =>
      var s := acquire(q);
      Step(s.(detector := Allocate(s.detector, tidx, mid)), Ret(0), calls + [AllocateCall(tidx, mid)])
  }

  /**
   * With the balanced path an uncontended lock meets `allocate`'s precondition in
   * both modes whenever the lock's unit is free, leaves `need` as it found it,
   * and the matching unlock restores the detector exactly.
   */
  lemma BalancedLockUnlockRoundTrip(p: Process, tid: nat, mid: nat)
    requires LockPreBalanced(p, tid, mid)
    requires mid < |p.detector.available| && p.detector.available[mid] >= 1
    requires FindTaskPos(p.tasks, tid).value < |p.detector.allocation|
    requires mid < |p.detector.allocation[FindTaskPos(p.tasks, tid).value]|
    ensures CommitPreBalanced(p, tid, mid, q => q)
    ensures var r := MutexLockBalanced(p, tid, mid, q => q);
      r.ret == Ret(0) ==>
        && r.proc.detector.need == p.detector.need
        && UnlockPre(r.proc, tid, mid)
        && MutexUnlock(r.proc, tid, mid).proc == p
  {
    var tidx := FindTaskPos(p.tasks, tid).value;
    var c := CheckLockBalanced(p, tid, mid);
    if c.Proceed? {
      var d1 := c.proc.detector;
      assert AllocatePre(d1, tidx, mid);
      var d2 := Allocate(d1, tidx, mid);
      CellDeltaCancel(p.detector.need, d1.need, d2.need, tidx, mid);
      FreeUndoesAllocate(d1, tidx, mid);
      assert Free(d2, tidx, mid) == p.detector;
    }
  }
}
