/**
 * The per-process deadlock-detection ledger, `DeadlockDetectorInner`: three
 * tables of counters, two resizes, the column safety check `request`, and the
 * ledger commits `allocate` and `free`. Counters are unbounded; every u32
 * subtraction of the source becomes a precondition that the cell is positive.
 */
module DeadlockDetection {
  import opened Options
  import opened Seqs
  import Safety

  /** `available[r]`, `allocation[t][r]` and `need[t][r]`. */
  datatype Detector = Detector(available: seq<nat>, allocation: seq<seq<nat>>, need: seq<seq<nat>>)

  /** Allocation and need rows are paired one per thread slot, and every row spans the resource axis. */
  predicate WellFormed(d: Detector) {
    && |d.allocation| == |d.need|
    && (forall t :: 0 <= t < |d.allocation| ==> |d.allocation[t]| == |d.available|)
    && (forall t :: 0 <= t < |d.need| ==> |d.need[t]| == |d.available|)
  }

  /** `DeadlockDetector::new`: no resources yet, one thread row for the process's main thread. */
  function New(): (d: Detector)
    ensures WellFormed(d)
    ensures |d.available| == 0 && |d.need| == 1
  {
    Detector([], [[]], [[]])
  }

  // ---------------------------------------------------------------------------
  // Cell updates

  /** `v'` equals `v` except that cell `c` moved by `delta`. */
  predicate VecDelta(v: seq<nat>, v': seq<nat>, c: nat, delta: int) {
    && |v'| == |v|
    && forall u :: 0 <= u < |v| ==> v'[u] == v[u] + (if u == c then delta else 0)
  }

  /** `m'` has the shape of `m` and equals it except that cell `(t, c)` moved by `delta`. */
  predicate CellDelta(m: seq<seq<nat>>, m': seq<seq<nat>>, t: nat, c: nat, delta: int) {
    && |m'| == |m|
    && (forall u :: 0 <= u < |m| ==> |m'[u]| == |m[u]|)
    && (forall u, v :: 0 <= u < |m| && 0 <= v < |m[u]| ==>
          m'[u][v] == m[u][v] + (if u == t && v == c then delta else 0))
  }

  function IncAt(v: seq<nat>, c: nat): (r: seq<nat>)
    requires c < |v|
    ensures VecDelta(v, r, c, 1)
  {
    v[c := v[c] + 1]
  }

  function DecAt(v: seq<nat>, c: nat): (r: seq<nat>)
    requires c < |v| && v[c] >= 1
    ensures VecDelta(v, r, c, -1)
  {
    v[c := v[c] - 1]
  }

  function IncCell(m: seq<seq<nat>>, t: nat, c: nat): (r: seq<seq<nat>>)
    requires t < |m| && c < |m[t]|
    ensures CellDelta(m, r, t, c, 1)
  {
    m[t := m[t][c := m[t][c] + 1]]
  }

  function DecCell(m: seq<seq<nat>>, t: nat, c: nat): (r: seq<seq<nat>>)
    requires t < |m| && c < |m[t]| && m[t][c] >= 1
    ensures CellDelta(m, r, t, c, -1)
  {
    m[t := m[t][c := m[t][c] - 1]]
  }

  /** Moving a cell up and then down again restores the table exactly. */
  lemma CellDeltaCancel(m: seq<seq<nat>>, m1: seq<seq<nat>>, m2: seq<seq<nat>>, t: nat, c: nat)
    requires CellDelta(m, m1, t, c, 1) && CellDelta(m1, m2, t, c, -1)
    ensures m2 == m
  {
    forall u | 0 <= u < |m|
      ensures m2[u] == m[u]
    {
      assert |m2[u]| == |m[u]|;
      forall v | 0 <= v < |m[u]|
        ensures m2[u][v] == m[u][v]
      {
      }
    }
  }

  /** Same for a vector. */
  lemma VecDeltaCancel(v: seq<nat>, v1: seq<nat>, v2: seq<nat>, c: nat, delta: int)
    requires VecDelta(v, v1, c, delta) && VecDelta(v1, v2, c, -delta)
    ensures v2 == v
  {
  }

  // ---------------------------------------------------------------------------
  // Resizing the two axes

  /**
   * `resize_update_thread_cnt(n)`: both tables get exactly `n` rows; new rows
   * are zero rows as wide as `available`; surviving rows are unchanged.
   */
  function ResizeThreads(d: Detector, n: nat): (r: Detector)
    ensures r.available == d.available
    ensures |r.allocation| == n && |r.need| == n
    ensures forall t :: 0 <= t < n && t < |d.allocation| ==> r.allocation[t] == d.allocation[t]
    ensures forall t :: 0 <= t < n && t < |d.need| ==> r.need[t] == d.need[t]
    ensures forall t :: |d.allocation| <= t < n ==> r.allocation[t] == Zeros(|d.available|)
    ensures forall t :: |d.need| <= t < n ==> r.need[t] == Zeros(|d.available|)
  {
    var row := Zeros(|d.available|);
    Detector(d.available, Resize(d.allocation, n, row), Resize(d.need, n, row))
  }

  /** Number of rows the zip in `resize_update_res_cnt` visits. */
  function Paired(d: Detector): nat {
    if |d.allocation| <= |d.need| then |d.allocation| else |d.need|
  }

  /** Resize the first `paired` rows to width `m`, zero-padding; leave the others. */
  function ResizeRows(rows: seq<seq<nat>>, paired: nat, m: nat): (r: seq<seq<nat>>)
    requires paired <= |rows|
    ensures |r| == |rows|
    ensures forall t :: 0 <= t < paired ==> r[t] == Resize(rows[t], m, 0)
    ensures forall t :: paired <= t < |rows| ==> r[t] == rows[t]
  {
    seq(|rows|, t requires 0 <= t < |rows| => if t < paired then Resize(rows[t], m, 0) else rows[t])
  }

  /**
   * `resize_update_res_cnt(m)`: `available` gets length `m`; every row the zip
   * pairs gets width `m`; old cells survive below the new width, new cells are 0;
   * rows beyond the shorter table are untouched.
   */
  function ResizeResources(d: Detector, m: nat): (r: Detector)
    ensures |r.available| == m
    ensures forall c :: 0 <= c < m ==> r.available[c] == (if c < |d.available| then d.available[c] else 0)
    ensures |r.allocation| == |d.allocation| && |r.need| == |d.need|
    ensures forall t :: 0 <= t < Paired(d) ==> |r.allocation[t]| == m && |r.need[t]| == m
    ensures forall t, c :: 0 <= t < Paired(d) && 0 <= c < m ==>
              r.allocation[t][c] == (if c < |d.allocation[t]| then d.allocation[t][c] else 0)
    ensures forall t, c :: 0 <= t < Paired(d) && 0 <= c < m ==>
              r.need[t][c] == (if c < |d.need[t]| then d.need[t][c] else 0)
    ensures forall t :: Paired(d) <= t < |d.allocation| ==> r.allocation[t] == d.allocation[t]
    ensures forall t :: Paired(d) <= t < |d.need| ==> r.need[t] == d.need[t]
  {
    var p := Paired(d);
    Detector(Resize(d.available, m, 0), ResizeRows(d.allocation, p, m), ResizeRows(d.need, p, m))
  }

  /** Growing the thread axis keeps the tables well formed. */
  lemma ResizeThreadsWellFormed(d: Detector, n: nat)
    requires WellFormed(d)
    ensures WellFormed(ResizeThreads(d, n))
  {
  }

  /** Resizing the resource axis makes paired tables well formed, whatever their old widths. */
  lemma ResizeResourcesWellFormed(d: Detector, m: nat)
    requires |d.allocation| == |d.need|
    ensures WellFormed(ResizeResources(d, m))
  {
  }

  /** The two resizes commute whenever the two tables have the same number of rows. */
  lemma ResizeCommute(d: Detector, n: nat, m: nat)
    requires |d.allocation| == |d.need|
    ensures ResizeThreads(ResizeResources(d, m), n) == ResizeResources(ResizeThreads(d, n), m)
  {
    var a := ResizeThreads(ResizeResources(d, m), n);
    var b := ResizeResources(ResizeThreads(d, n), m);
    assert a.available == b.available;
    forall t | 0 <= t < n
      ensures a.allocation[t] == b.allocation[t] && a.need[t] == b.need[t]
    {
      if t < |d.allocation| {
        assert a.allocation[t] == Resize(d.allocation[t], m, 0);
        assert b.allocation[t] == Resize(d.allocation[t], m, 0);
        assert a.need[t] == Resize(d.need[t], m, 0);
        assert b.need[t] == Resize(d.need[t], m, 0);
      } else {
        assert a.allocation[t] == Zeros(m) == b.allocation[t];
        assert a.need[t] == Zeros(m) == b.need[t];
      }
    }
  }

  // ---------------------------------------------------------------------------
  // The safety check

  /**
   * Indexing `request` may perform: the incremented cell `need[tidx][rid]`; the
   * `need` row of every live task (a finished slot short-circuits the scan before
   * its row is read); and `work[rid]` whenever some task is live. The `allocation`
   * row is read only for slots the loop finishes, which can be any live slot, so
   * the predicate asks for it at every live slot; the two resizes keep `allocation`
   * and `need` paired, so this is met wherever `need` is.
   */
  predicate RequestPre<T>(d: Detector, tasks: seq<Option<T>>, tidx: nat, rid: nat) {
    && tidx < |d.need| && rid < |d.need[tidx]|
    && (forall i :: 0 <= i < |tasks| && tasks[i].Some? ==>
          i < |d.need| && rid < |d.need[i]| && i < |d.allocation| && rid < |d.allocation[i]|)
    && (rid < |d.available| || forall i :: 0 <= i < |tasks| ==> tasks[i].None?)
  }

  /** `tasks.iter().map(|t| t.is_none())`: empty slots start finished. */
  function InitialFinish<T>(tasks: seq<Option<T>>): (f: seq<bool>)
    ensures |f| == |tasks|
    ensures forall i :: 0 <= i < |tasks| ==> (f[i] <==> tasks[i].None?)
  {
    seq(|tasks|, i requires 0 <= i < |tasks| => tasks[i].None?)
  }

  /** Column `rid` of a table, read at the live slots; empty slots are never read and show 0. */
  function Column<T>(m: seq<seq<nat>>, tasks: seq<Option<T>>, rid: nat): (col: seq<nat>)
    requires forall i :: 0 <= i < |tasks| && tasks[i].Some? ==> i < |m| && rid < |m[i]|
    ensures |col| == |tasks|
    ensures forall i :: 0 <= i < |tasks| && tasks[i].Some? ==> col[i] == m[i][rid]
    ensures forall i :: 0 <= i < |tasks| && tasks[i].None? ==> col[i] == 0
  {
    seq(|tasks|, i requires 0 <= i < |tasks| => if tasks[i].Some? then m[i][rid] else 0)
  }

  /** `work[rid]` at the start of the scan (irrelevant, and shown as 0, when no task is live). */
  function Work(available: seq<nat>, rid: nat): nat {
    if rid < |available| then available[rid] else 0
  }

  /** The verdict of `request` and the detector it leaves behind. */
  datatype Verdict = Verdict(granted: bool, detector: Detector)

  /**
   * `request(tasks, tidx, rid)`: bump `need[tidx][rid]`, run the column search,
   * and undo the bump if some live task cannot finish.
   */
  function Request<T>(d: Detector, tasks: seq<Option<T>>, tidx: nat, rid: nat): (r: Verdict)
    requires RequestPre(d, tasks, tidx, rid)
    ensures !r.granted ==> r.detector == d
    ensures r.granted ==> r.detector.available == d.available && r.detector.allocation == d.allocation
    ensures r.granted ==> CellDelta(d.need, r.detector.need, tidx, rid, 1)
  {
    var need := IncCell(d.need, tidx, rid);
    var out := Safety.Search(InitialFinish(tasks), Column(need, tasks, rid),
                             Column(d.allocation, tasks, rid), Work(d.available, rid));
    if AllTrue(out.finish) then
      Verdict(true, d.(need := need))
    else
      var rolled := DecCell(need, tidx, rid);
      CellDeltaCancel(d.need, need, rolled, tidx, rid);
      Verdict(false, d.(need := rolled))
  }

  /** The request would leave a safe state: some completion order of the live tasks exists on column `rid`. */
  ghost predicate SafeAfterRequest<T>(d: Detector, tasks: seq<Option<T>>, tidx: nat, rid: nat)
    requires RequestPre(d, tasks, tidx, rid)
  {
    Safety.Safe(InitialFinish(tasks), Column(IncCell(d.need, tidx, rid), tasks, rid),
                Column(d.allocation, tasks, rid), Work(d.available, rid))
  }

  /** `request` grants exactly the requests after which column `rid` still has a Banker's safe sequence. */
  lemma RequestGrantedIffSafe<T>(d: Detector, tasks: seq<Option<T>>, tidx: nat, rid: nat)
    requires RequestPre(d, tasks, tidx, rid)
    ensures Request(d, tasks, tidx, rid).granted <==> SafeAfterRequest(d, tasks, tidx, rid)
  {
    Safety.SearchDecidesSafety(InitialFinish(tasks), Column(IncCell(d.need, tidx, rid), tasks, rid),
                               Column(d.allocation, tasks, rid), Work(d.available, rid));
  }

  /**
   * The verdict depends only on which slots are empty, on column `rid` of `need`
   * (after the bump) and of `allocation` at the live slots, and on `available[rid]`.
   */
  lemma RequestColumnOnly<T, U>(d1: Detector, tasks1: seq<Option<T>>, tidx1: nat,
                                d2: Detector, tasks2: seq<Option<U>>, tidx2: nat, rid: nat)
    requires RequestPre(d1, tasks1, tidx1, rid) && RequestPre(d2, tasks2, tidx2, rid)
    requires |tasks1| == |tasks2|
    requires forall i :: 0 <= i < |tasks1| ==> (tasks1[i].None? <==> tasks2[i].None?)
    requires forall i :: 0 <= i < |tasks1| && tasks1[i].Some? ==>
               d1.need[i][rid] + (if i == tidx1 then 1 else 0) == d2.need[i][rid] + (if i == tidx2 then 1 else 0)
    requires forall i :: 0 <= i < |tasks1| && tasks1[i].Some? ==> d1.allocation[i][rid] == d2.allocation[i][rid]
    requires Work(d1.available, rid) == Work(d2.available, rid)
    ensures Request(d1, tasks1, tidx1, rid).granted == Request(d2, tasks2, tidx2, rid).granted
  {
    assert InitialFinish(tasks1) == InitialFinish(tasks2);
    assert Column(IncCell(d1.need, tidx1, rid), tasks1, rid) == Column(IncCell(d2.need, tidx2, rid), tasks2, rid);
    assert Column(d1.allocation, tasks1, rid) == Column(d2.allocation, tasks2, rid);
  }

  /**
   * `(0..tasks.len()).find(|&i| finish[i] == false && need[i][rid] <= work[rid])`:
   * the first ready slot, or `|tasks|` when there is none.
   */
  method FindReady<T>(finish: seq<bool>, need: seq<seq<nat>>, work: seq<nat>, tasks: seq<Option<T>>, rid: nat)
    returns (i: nat)
    requires |finish| == |tasks|
    requires forall j :: 0 <= j < |tasks| && tasks[j].None? ==> finish[j]
    requires forall j :: 0 <= j < |tasks| && tasks[j].Some? ==> j < |need| && rid < |need[j]|
    requires rid < |work| || forall j :: 0 <= j < |tasks| ==> tasks[j].None?
    ensures i <= |tasks|
    ensures i < |tasks| ==> Safety.Ready(finish, Column(need, tasks, rid), Work(work, rid), i)
    ensures forall j :: 0 <= j < i ==> !Safety.Ready(finish, Column(need, tasks, rid), Work(work, rid), j)
  {
    ghost var col := Column(need, tasks, rid);
    i := 0;
    while i < |tasks| && !(!finish[i] && need[i][rid] <= work[rid])
      invariant 0 <= i <= |tasks|
      invariant forall j :: 0 <= j < i ==> !Safety.Ready(finish, col, Work(work, rid), j)
    {
      i := i + 1;
    }
  }

  /** The state the loop of `request` keeps between rounds. */
  predicate ScanState<T>(tasks: seq<Option<T>>, need: seq<seq<nat>>, work: seq<nat>, finish: seq<bool>, rid: nat) {
    && |finish| == |tasks|
    && (forall j :: 0 <= j < |tasks| && tasks[j].None? ==> finish[j])
    && (forall j :: 0 <= j < |tasks| && tasks[j].Some? ==> j < |need| && rid < |need[j]|)
    && (rid < |work| || forall j :: 0 <= j < |tasks| ==> tasks[j].None?)
  }

  /**
   * One pass of the loop body of `request`: find the first ready slot; if there
   * is none report `stuck`, otherwise reclaim its allocation and mark it finished.
   * The column search from the new state reaches the same verdict.
   */
  method Round<T>(tasks: seq<Option<T>>, need: seq<seq<nat>>, allocation: seq<seq<nat>>,
                  work: seq<nat>, finish: seq<bool>, rid: nat)
    returns (work': seq<nat>, finish': seq<bool>, stuck: bool)
    requires ScanState(tasks, need, work, finish, rid)
    requires forall j :: 0 <= j < |tasks| && tasks[j].Some? ==> j < |allocation| && rid < |allocation[j]|
    ensures ScanState(tasks, need, work', finish', rid) && |work'| == |work|
    ensures stuck ==> finish' == finish
    ensures stuck ==> (AllTrue(finish) <==>
                       AllTrue(Safety.Search(finish, Column(need, tasks, rid), Column(allocation, tasks, rid), Work(work, rid)).finish))
    ensures !stuck ==> CountFalse(finish') < CountFalse(finish)
    ensures AllTrue(Safety.Search(finish', Column(need, tasks, rid), Column(allocation, tasks, rid), Work(work', rid)).finish)
            == AllTrue(Safety.Search(finish, Column(need, tasks, rid), Column(allocation, tasks, rid), Work(work, rid)).finish)
  {
    ghost var needCol := Column(need, tasks, rid);
    ghost var allocCol := Column(allocation, tasks, rid);
    var i := FindReady(finish, need, work, tasks, rid);
    if i == |tasks| {
      Safety.SearchStop(finish, needCol, allocCol, Work(work, rid));
      work', finish', stuck := work, finish, true;
    } else {
      work' := work[rid := work[rid] + allocation[i][rid]];
      finish' := finish[i := true];
      stuck := false;
      Safety.SearchStep(finish, needCol, allocCol, Work(work, rid), i, finish', Work(work', rid));
    }
  }

  /**
   * `request` as the source writes it: a `loop` that finds the first ready
   * slot, reclaims its allocation into `work[rid]` and marks it finished,
   * then the `any` test and the rollback.
   */
  method RequestLoop<T>(d: Detector, tasks: seq<Option<T>>, tidx: nat, rid: nat) returns (granted: bool, d': Detector)
    requires RequestPre(d, tasks, tidx, rid)
    ensures Verdict(granted, d') == Request(d, tasks, tidx, rid)
  {
    var need := IncCell(d.need, tidx, rid);
    var work := d.available;
    var finish := InitialFinish(tasks);
    ghost var goal := AllTrue(Safety.Search(finish, Column(need, tasks, rid), Column(d.allocation, tasks, rid),
                                            Work(work, rid)).finish);
    var stuck := false;
    while !stuck
      invariant ScanState(tasks, need, work, finish, rid)
      invariant AllTrue(Safety.Search(finish, Column(need, tasks, rid), Column(d.allocation, tasks, rid),
                                      Work(work, rid)).finish) == goal
      invariant stuck ==> AllTrue(finish) == goal
      decreases CountFalse(finish), if stuck then 0 else 1
    {
      work, finish, stuck := Round(tasks, need, d.allocation, work, finish, rid);
    }
    if AllTrue(finish) {
      granted, d' := true, d.(need := need);
    } else {
      ghost var bumped := need;
      need := need[tidx := need[tidx][rid := need[tidx][rid] - 1]];
      assert need == DecCell(bumped, tidx, rid);
      CellDeltaCancel(d.need, bumped, need, tidx, rid);
      granted, d' := false, d.(need := need);
    }
  }

  // ---------------------------------------------------------------------------
  // The ledger

  /** Indices `allocate` touches, and the two u32 decrements it must not underflow. */
  predicate AllocatePre(d: Detector, tidx: nat, rid: nat) {
    && rid < |d.available| && d.available[rid] >= 1
    && tidx < |d.need| && rid < |d.need[tidx]| && d.need[tidx][rid] >= 1
    && tidx < |d.allocation| && rid < |d.allocation[tidx]|
  }

  /** `allocate(tidx, rid)`: one unit of `rid` moves from free and needed to held by `tidx`. */
  function Allocate(d: Detector, tidx: nat, rid: nat): (r: Detector)
    requires AllocatePre(d, tidx, rid)
    ensures VecDelta(d.available, r.available, rid, -1)
    ensures CellDelta(d.need, r.need, tidx, rid, -1)
    ensures CellDelta(d.allocation, r.allocation, tidx, rid, 1)
    ensures WellFormed(d) ==> WellFormed(r)
  {
    Detector(DecAt(d.available, rid), IncCell(d.allocation, tidx, rid), DecCell(d.need, tidx, rid))
  }

  /** Indices `free` touches, and the u32 decrement it must not underflow. */
  predicate FreePre(d: Detector, tidx: nat, rid: nat) {
    && rid < |d.available|
    && tidx < |d.allocation| && rid < |d.allocation[tidx]| && d.allocation[tidx][rid] >= 1
  }

  /** `free(tidx, rid)`: one unit of `rid` held by `tidx` becomes free; `need` is not touched. */
  function Free(d: Detector, tidx: nat, rid: nat): (r: Detector)
    requires FreePre(d, tidx, rid)
    ensures r.need == d.need
    ensures VecDelta(d.available, r.available, rid, 1)
    ensures CellDelta(d.allocation, r.allocation, tidx, rid, -1)
    ensures WellFormed(d) ==> WellFormed(r)
  {
    Detector(IncAt(d.available, rid), DecCell(d.allocation, tidx, rid), d.need)
  }

  /** `free` undoes `allocate` on `available` and `allocation`; only the need unit stays consumed. */
  lemma FreeUndoesAllocate(d: Detector, tidx: nat, rid: nat)
    requires AllocatePre(d, tidx, rid)
    ensures FreePre(Allocate(d, tidx, rid), tidx, rid)
    ensures Free(Allocate(d, tidx, rid), tidx, rid) == d.(need := DecCell(d.need, tidx, rid))
  {
    var a := Allocate(d, tidx, rid);
    var f := Free(a, tidx, rid);
    VecDeltaCancel(d.available, a.available, f.available, rid, -1);
    CellDeltaCancel(d.allocation, a.allocation, f.allocation, tidx, rid);
  }

  /** `allocate` undoes `free` on `available` and `allocation`, consuming one need unit. */
  lemma AllocateUndoesFree(d: Detector, tidx: nat, rid: nat)
    requires FreePre(d, tidx, rid)
    requires tidx < |d.need| && rid < |d.need[tidx]| && d.need[tidx][rid] >= 1
    ensures AllocatePre(Free(d, tidx, rid), tidx, rid)
    ensures Allocate(Free(d, tidx, rid), tidx, rid) == d.(need := DecCell(d.need, tidx, rid))
  {
    var f := Free(d, tidx, rid);
    var a := Allocate(f, tidx, rid);
    VecDeltaCancel(d.available, f.available, a.available, rid, 1);
    assert CellDelta(d.allocation, f.allocation, tidx, rid, -1);
    forall u | 0 <= u < |d.allocation|
      ensures a.allocation[u] == d.allocation[u]
    {
      assert |a.allocation[u]| == |d.allocation[u]|;
    }
  }

  /** A granted request followed by its `allocate` leaves `need` as it was before the request. */
  lemma GrantedThenAllocateRestoresNeed<T>(d: Detector, tasks: seq<Option<T>>, tidx: nat, rid: nat)
    requires RequestPre(d, tasks, tidx, rid)
    requires Request(d, tasks, tidx, rid).granted
    requires rid < |d.available| && d.available[rid] >= 1 && tidx < |d.allocation| && rid < |d.allocation[tidx]|
    ensures AllocatePre(Request(d, tasks, tidx, rid).detector, tidx, rid)
    ensures Allocate(Request(d, tasks, tidx, rid).detector, tidx, rid).need == d.need
  {
    var g := Request(d, tasks, tidx, rid).detector;
    CellDeltaCancel(d.need, g.need, Allocate(g, tidx, rid).need, tidx, rid);
  }

  // ---------------------------------------------------------------------------
  // Conservation

  /** The rows of `m` all reach column `c`. */
  predicate Spans(m: seq<seq<nat>>, c: nat) {
    forall t :: 0 <= t < |m| ==> c < |m[t]|
  }

  /** Σ_t m[t][c]. */
  function ColumnSum(m: seq<seq<nat>>, c: nat): nat
    requires Spans(m, c)
  {
    if |m| == 0 then 0 else m[0][c] + ColumnSum(m[1..], c)
  }

  /** Changing row `t` of column `c` by `delta` (and no other row) changes the column sum by `delta`. */
  lemma {:induction false} ColumnSumDelta(m: seq<seq<nat>>, m': seq<seq<nat>>, t: int, c: nat, delta: int)
    requires |m'| == |m| && Spans(m, c) && Spans(m', c)
    requires forall u :: 0 <= u < |m| && u != t ==> m'[u][c] == m[u][c]
    requires 0 <= t < |m| ==> m'[t][c] == m[t][c] + delta
    ensures ColumnSum(m', c) == ColumnSum(m, c) + (if 0 <= t < |m| then delta else 0)
  {
    if |m| > 0 {
      ColumnSumDelta(m[1..], m'[1..], t - 1, c, delta);
    }
  }

  /** Units of resource `c` in existence: `available[c] + Σ_t allocation[t][c]`. */
  function Total(d: Detector, c: nat): nat
    requires c < |d.available| && Spans(d.allocation, c)
  {
    d.available[c] + ColumnSum(d.allocation, c)
  }

  /** `allocate` conserves the units of every resource. */
  lemma AllocateConserves(d: Detector, tidx: nat, rid: nat, c: nat)
    requires WellFormed(d) && AllocatePre(d, tidx, rid) && c < |d.available|
    ensures Total(Allocate(d, tidx, rid), c) == Total(d, c)
  {
    var r := Allocate(d, tidx, rid);
    ColumnSumDelta(d.allocation, r.allocation, tidx, c, if c == rid then 1 else 0);
  }

  /** `free` conserves the units of every resource. */
  lemma FreeConserves(d: Detector, tidx: nat, rid: nat, c: nat)
    requires WellFormed(d) && FreePre(d, tidx, rid) && c < |d.available|
    ensures Total(Free(d, tidx, rid), c) == Total(d, c)
  {
    var r := Free(d, tidx, rid);
    ColumnSumDelta(d.allocation, r.allocation, tidx, c, if c == rid then -1 else 0);
  }

  /** A call the syscall layer makes into the detector. */
  datatype DetectorCall = RequestCall(tidx: nat, rid: nat) | AllocateCall(tidx: nat, rid: nat) | FreeCall(tidx: nat, rid: nat)

  /** Apply a run of detector calls against a fixed task table; `None` where a call would panic. */
  function Replay<T>(d: Detector, tasks: seq<Option<T>>, calls: seq<DetectorCall>): Option<Detector>
    decreases |calls|
  {
    if |calls| == 0 then Some(d)
    else
      var next :=
        match calls[0]
        case RequestCall(t, r) => if RequestPre(d, tasks, t, r) then Some(Request(d, tasks, t, r).detector) else None
        case AllocateCall(t, r) => if AllocatePre(d, t, r) then Some(Allocate(d, t, r)) else None
        case FreeCall(t, r) => if FreePre(d, t, r) then Some(Free(d, t, r)) else None;
      if next.None? then None else Replay(next.value, tasks, calls[1..])
  }

  /** Any run of requests, allocations and frees keeps the tables well formed and conserves every resource. */
  lemma {:induction false} ReplayConserves<T>(d: Detector, tasks: seq<Option<T>>, calls: seq<DetectorCall>)
    requires WellFormed(d)
    requires Replay(d, tasks, calls).Some?
    ensures WellFormed(Replay(d, tasks, calls).value)
    ensures |Replay(d, tasks, calls).value.available| == |d.available|
    ensures forall c :: 0 <= c < |d.available| ==> Total(Replay(d, tasks, calls).value, c) == Total(d, c)
    decreases |calls|
  {
    if |calls| > 0 {
      match calls[0]
      case RequestCall(t, r) =>
        ReplayConserves(Request(d, tasks, t, r).detector, tasks, calls[1..]);
      case AllocateCall(t, r) =>
        forall c | 0 <= c < |d.available|
          ensures Total(Allocate(d, t, r), c) == Total(d, c)
        {
          AllocateConserves(d, t, r, c);
        }
        ReplayConserves(Allocate(d, t, r), tasks, calls[1..]);
      case FreeCall(t, r) =>
        forall c | 0 <= c < |d.available|
          ensures Total(Free(d, t, r), c) == Total(d, c)
        {
          FreeConserves(d, t, r, c);
        }
        ReplayConserves(Free(d, t, r), tasks, calls[1..]);
    }
  }
}
