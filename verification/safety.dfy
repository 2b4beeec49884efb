/**
 * The search loop of `DeadlockDetectorInner::request`, on one resource column.
 *
 * `finish[i]` says whether task slot `i` is already done (its slot is empty, or
 * it has been simulated to completion), `need[i]` and `alloc[i]` are the cells
 * of column `rid` of the need and allocation tables, and `work` is the simulated
 * free capacity `work[rid]`. Each round picks the FIRST unfinished slot whose
 * need fits into `work`, reclaims its allocation and marks it finished.
 */
module Safety {
  import opened Options
  import opened Seqs

  /** Slot `i` can be simulated to completion with `work` free units. */
  predicate Ready(finish: seq<bool>, need: seq<nat>, work: nat, i: nat)
    requires |need| == |finish| && i < |finish|
  {
    !finish[i] && need[i] <= work
  }

  /** `(from..len).find(...)`: the smallest ready slot at or after `from`. */
  function FirstReady(finish: seq<bool>, need: seq<nat>, work: nat, from: nat): (r: Option<nat>)
    requires |need| == |finish| && from <= |finish|
    ensures r.Some? ==> from <= r.value < |finish| && Ready(finish, need, work, r.value)
    ensures r.Some? ==> forall j :: from <= j < r.value ==> !Ready(finish, need, work, j)
    ensures r.None? ==> forall j :: from <= j < |finish| ==> !Ready(finish, need, work, j)
    ensures r.None? ==> forall j :: from <= j < |finish| && !finish[j] ==> need[j] > work
    decreases |finish| - from
  {
    if from == |finish| then None
    else if Ready(finish, need, work, from) then Some(from)
    else FirstReady(finish, need, work, from + 1)
  }

  /** A ready slot with no ready slot before it is what the scan finds. */
  lemma FirstReadyIs(finish: seq<bool>, need: seq<nat>, work: nat, i: nat)
    requires |need| == |finish| && i < |finish| && Ready(finish, need, work, i)
    requires forall j :: 0 <= j < i ==> !Ready(finish, need, work, j)
    ensures FirstReady(finish, need, work, 0) == Some(i)
  {
  }

  /** The final `finish` flags and simulated free capacity when the loop stops. */
  datatype Outcome = Outcome(finish: seq<bool>, work: nat)

  /** Slots set in `after` but not in `before`. */
  function Newly(before: seq<bool>, after: seq<bool>): (m: seq<bool>)
    requires |before| == |after|
    ensures |m| == |before|
    ensures forall i :: 0 <= i < |m| ==> (m[i] <==> after[i] && !before[i])
  {
    seq(|before|, i requires 0 <= i < |before| => after[i] && !before[i])
  }

  /**
   * The loop of `request`: repeat picking the first ready slot until none is
   * ready. It terminates because every round sets one more `finish` flag.
   */
  function Search(finish: seq<bool>, need: seq<nat>, alloc: seq<nat>, work: nat): (r: Outcome)
    requires |need| == |finish| && |alloc| == |finish|
    ensures |r.finish| == |finish|
    ensures forall i :: 0 <= i < |finish| && finish[i] ==> r.finish[i]
    ensures forall i :: 0 <= i < |finish| && !r.finish[i] ==> need[i] > r.work
    ensures r.work == work + MaskSum(alloc, Newly(finish, r.finish))
    decreases CountFalse(finish)
  {
    match FirstReady(finish, need, work, 0)
    case None =>
      MaskSumNone(alloc, Newly(finish, finish));
      Outcome(finish, work)
    case Some(i) =>
      CountFalseFlip(finish, i);
      var r := Search(finish[i := true], need, alloc, work + alloc[i]);
      assert Newly(finish, r.finish) == Newly(finish[i := true], r.finish)[i := true];
      MaskSumSet(alloc, Newly(finish[i := true], r.finish), i);
      r
  }

  /**
   * One round of the loop: picking the first ready slot `i` (giving `finish'`
   * and `work'`) hands the rest of the search to the updated state.
   */
  lemma SearchStep(finish: seq<bool>, need: seq<nat>, alloc: seq<nat>, work: nat, i: nat,
                   finish': seq<bool>, work': nat)
    requires |need| == |finish| && |alloc| == |finish| && i < |finish| && Ready(finish, need, work, i)
    requires forall j :: 0 <= j < i ==> !Ready(finish, need, work, j)
    requires finish' == finish[i := true] && work' == work + alloc[i]
    ensures CountFalse(finish') < CountFalse(finish)
    ensures AllTrue(Search(finish', need, alloc, work').finish) == AllTrue(Search(finish, need, alloc, work).finish)
  {
    FirstReadyIs(finish, need, work, i);
    CountFalseFlip(finish, i);
  }

  /** When no slot is ready the loop stops with the state it has. */
  lemma SearchStop(finish: seq<bool>, need: seq<nat>, alloc: seq<nat>, work: nat)
    requires |need| == |finish| && |alloc| == |finish|
    requires forall j :: 0 <= j < |finish| ==> !Ready(finish, need, work, j)
    ensures AllTrue(Search(finish, need, alloc, work).finish) == AllTrue(finish)
  {
  }

  /**
   * Serving the slots of `order` one after another, each one's need fits into
   * the capacity reclaimed from the slots served before it.
   */
  predicate Servable(order: seq<nat>, need: seq<nat>, alloc: seq<nat>, work: nat)
    requires |alloc| == |need|
    decreases |order|
  {
    |order| == 0 ||
    (order[0] < |need| && need[order[0]] <= work
     && Servable(order[1..], need, alloc, work + alloc[order[0]]))
  }

  /** `order` lists every unfinished slot exactly once and nothing else. */
  predicate Covers(order: seq<nat>, finish: seq<bool>) {
    && Indexes(order, |finish|)
    && (forall k :: 0 <= k < |order| ==> !finish[order[k]])
    && Distinct(order)
    && (forall i :: 0 <= i < |finish| && !finish[i] ==> i in order)
  }

  /** A Banker's safe sequence for this column: a completion order of all unfinished slots. */
  ghost predicate SafeSequence(order: seq<nat>, finish: seq<bool>, need: seq<nat>, alloc: seq<nat>, work: nat)
    requires |need| == |finish| && |alloc| == |finish|
  {
    Covers(order, finish) && Servable(order, need, alloc, work)
  }

  /** The column is in a safe state: some completion order exists. */
  ghost predicate Safe(finish: seq<bool>, need: seq<nat>, alloc: seq<nat>, work: nat)
    requires |need| == |finish| && |alloc| == |finish|
  {
    exists order :: SafeSequence(order, finish, need, alloc, work)
  }

  /** The order in which the loop marks slots finished. */
  ghost function GreedyOrder(finish: seq<bool>, need: seq<nat>, alloc: seq<nat>, work: nat): seq<nat>
    requires |need| == |finish| && |alloc| == |finish|
    decreases CountFalse(finish)
  {
    match FirstReady(finish, need, work, 0)
    case None => []
    case Some(i) =>
      CountFalseFlip(finish, i);
      [i] + GreedyOrder(finish[i := true], need, alloc, work + alloc[i])
  }

  /** The loop's own order serves each slot it picks. */
  lemma {:induction false} GreedyServable(finish: seq<bool>, need: seq<nat>, alloc: seq<nat>, work: nat)
    requires |need| == |finish| && |alloc| == |finish|
    ensures Servable(GreedyOrder(finish, need, alloc, work), need, alloc, work)
    decreases CountFalse(finish)
  {
    match FirstReady(finish, need, work, 0)
    case None =>
    case Some(i) =>
      CountFalseFlip(finish, i);
      GreedyServable(finish[i := true], need, alloc, work + alloc[i]);
      var g := GreedyOrder(finish, need, alloc, work);
      assert g[1..] == GreedyOrder(finish[i := true], need, alloc, work + alloc[i]);
  }

  /** The loop's own order picks only unfinished slots, each at most once. */
  lemma {:induction false} GreedyPicksUnfinished(finish: seq<bool>, need: seq<nat>, alloc: seq<nat>, work: nat)
    requires |need| == |finish| && |alloc| == |finish|
    ensures var g := GreedyOrder(finish, need, alloc, work);
      Indexes(g, |finish|) && Distinct(g) && forall k :: 0 <= k < |g| ==> !finish[g[k]]
    decreases CountFalse(finish)
  {
    match FirstReady(finish, need, work, 0)
    case None =>
    case Some(i) =>
      CountFalseFlip(finish, i);
      var f' := finish[i := true];
      GreedyPicksUnfinished(f', need, alloc, work + alloc[i]);
      var rest := GreedyOrder(f', need, alloc, work + alloc[i]);
      var g := GreedyOrder(finish, need, alloc, work);
      assert g == [i] + rest;
      forall k | 0 <= k < |rest|
        ensures rest[k] != i && !finish[rest[k]]
      {
        assert !f'[rest[k]];
      }
  }

  /** The loop finishes exactly the slots finished at the start plus those of its own order. */
  lemma {:induction false} GreedyFinishes(finish: seq<bool>, need: seq<nat>, alloc: seq<nat>, work: nat)
    requires |need| == |finish| && |alloc| == |finish|
    ensures var g := GreedyOrder(finish, need, alloc, work);
      var r := Search(finish, need, alloc, work);
      forall i :: 0 <= i < |finish| ==> (r.finish[i] <==> finish[i] || i in g)
    decreases CountFalse(finish)
  {
    match FirstReady(finish, need, work, 0)
    case None =>
    case Some(i) =>
      CountFalseFlip(finish, i);
      var f' := finish[i := true];
      var rest := GreedyOrder(f', need, alloc, work + alloc[i]);
      var g := GreedyOrder(finish, need, alloc, work);
      assert g == [i] + rest;
      var r := Search(finish, need, alloc, work);
      var r' := Search(f', need, alloc, work + alloc[i]);
      assert r == r';
      GreedyFinishes(f', need, alloc, work + alloc[i]);
      forall j | 0 <= j < |finish|
        ensures r.finish[j] <==> finish[j] || j in g
      {
        assert (j in g) <==> (j == i || j in rest);
        assert r'.finish[j] <==> f'[j] || j in rest;
      }
  }

  /** In a servable order, slot `order[k]`'s need fits into the capacity freed by `order[..k]`. */
  lemma {:induction false} ServablePrefix(order: seq<nat>, need: seq<nat>, alloc: seq<nat>, work: nat, k: nat)
    requires |alloc| == |need| && Servable(order, need, alloc, work) && k < |order|
    requires Indexes(order, |need|)
    ensures need[order[k]] <= work + SeqSum(alloc, order[..k])
    decreases k
  {
    if k > 0 {
      ServablePrefix(order[1..], need, alloc, work + alloc[order[0]], k - 1);
      assert order[..k][1..] == order[1..][..k - 1];
    }
  }

  /** Under a safe sequence, the loop finishes the first `k` slots of that sequence. */
  lemma {:induction false} SafePrefixFinished(order: seq<nat>, finish: seq<bool>, need: seq<nat>, alloc: seq<nat>, work: nat, k: nat)
    requires |need| == |finish| && |alloc| == |finish|
    requires SafeSequence(order, finish, need, alloc, work) && k <= |order|
    ensures forall j :: 0 <= j < k ==> Search(finish, need, alloc, work).finish[order[j]]
    decreases k
  {
    if k > 0 {
      SafePrefixFinished(order, finish, need, alloc, work, k - 1);
      var r := Search(finish, need, alloc, work);
      var p := order[..k - 1];
      SeqSumBoundedByMask(alloc, p, Newly(finish, r.finish));
      ServablePrefix(order, need, alloc, work, k - 1);
    }
  }

  /**
   * The greedy first-fit loop is a decision procedure for Banker's safety on the
   * column: every slot ends finished iff a completion order exists.
   */
  lemma SearchDecidesSafety(finish: seq<bool>, need: seq<nat>, alloc: seq<nat>, work: nat)
    requires |need| == |finish| && |alloc| == |finish|
    ensures AllTrue(Search(finish, need, alloc, work).finish) <==> Safe(finish, need, alloc, work)
  {
    var r := Search(finish, need, alloc, work);
    if AllTrue(r.finish) {
      GreedyServable(finish, need, alloc, work);
      GreedyPicksUnfinished(finish, need, alloc, work);
      GreedyFinishes(finish, need, alloc, work);
      var g := GreedyOrder(finish, need, alloc, work);
      assert SafeSequence(g, finish, need, alloc, work);
    }
    if Safe(finish, need, alloc, work) {
      var order :| SafeSequence(order, finish, need, alloc, work);
      SafePrefixFinished(order, finish, need, alloc, work, |order|);
      forall i | 0 <= i < |finish|
        ensures r.finish[i]
      {
        if !finish[i] {
          var k :| 0 <= k < |order| && order[k] == i;
        }
      }
    }
  }
}
