/** Sequence helpers shared by the detector tables and the safety search. */
module Seqs {

  /** A row of `n` zero counters, the fill value of a freshly added table row. */
  function Zeros(n: nat): (r: seq<nat>)
    ensures |r| == n
    ensures forall i :: 0 <= i < n ==> r[i] == 0
  {
    seq(n, _ => 0)
  }

  /** Rust's `Vec::resize(n, fill)`: truncate to `n` elements, or pad with `fill` up to `n`. */
  function Resize<T>(s: seq<T>, n: nat, fill: T): (r: seq<T>)
    ensures |r| == n
    ensures forall i :: 0 <= i < |s| && i < n ==> r[i] == s[i]
    ensures forall i :: |s| <= i < n ==> r[i] == fill
  {
    if n <= |s| then s[..n] else s + seq(n - |s|, _ => fill)
  }

  /** Every flag is set. */
  predicate AllTrue(s: seq<bool>) {
    forall i :: 0 <= i < |s| ==> s[i]
  }

  /** Number of flags still clear; the measure of the safety search. */
  function CountFalse(s: seq<bool>): nat {
    if |s| == 0 then 0 else (if s[0] then 0 else 1) + CountFalse(s[1..])
  }

  /** Setting one clear flag lowers the number of clear flags by exactly one. */
  lemma {:induction false} CountFalseFlip(s: seq<bool>, i: nat)
    requires i < |s| && !s[i]
    ensures CountFalse(s) >= 1
    ensures CountFalse(s[i := true]) == CountFalse(s) - 1
  {
    if i == 0 {
      assert s[i := true][1..] == s[1..];
    } else {
      assert s[i := true][1..] == s[1..][i - 1 := true];
      CountFalseFlip(s[1..], i - 1);
    }
  }

  /** Sum of `a[i]` over the positions `i` selected by the mask `m`. */
  function MaskSum(a: seq<nat>, m: seq<bool>): nat
    requires |a| == |m|
  {
    if |a| == 0 then 0 else (if m[0] then a[0] else 0) + MaskSum(a[1..], m[1..])
  }

  /** An empty selection sums to zero. */
  lemma {:induction false} MaskSumNone(a: seq<nat>, m: seq<bool>)
    requires |a| == |m|
    requires forall i :: 0 <= i < |m| ==> !m[i]
    ensures MaskSum(a, m) == 0
  {
    if |a| > 0 {
      MaskSumNone(a[1..], m[1..]);
    }
  }

  /** Selecting one more position adds exactly its value. */
  lemma {:induction false} MaskSumSet(a: seq<nat>, m: seq<bool>, i: nat)
    requires |a| == |m| && i < |m| && !m[i]
    ensures MaskSum(a, m[i := true]) == MaskSum(a, m) + a[i]
  {
    if i == 0 {
      assert m[i := true][1..] == m[1..];
    } else {
      assert m[i := true][1..] == m[1..][i - 1 := true];
      MaskSumSet(a[1..], m[1..], i - 1);
    }
  }

  /** Every index in `s` is below `n`. */
  predicate Indexes(s: seq<nat>, n: nat) {
    forall k :: 0 <= k < |s| ==> s[k] < n
  }

  /** No index occurs twice. */
  predicate Distinct(s: seq<nat>) {
    forall k, l :: 0 <= k < l < |s| ==> s[k] != s[l]
  }

  /** Sum of `a[s[k]]` over the positions of `s`, in order. */
  function SeqSum(a: seq<nat>, s: seq<nat>): nat
    requires Indexes(s, |a|)
  {
    if |s| == 0 then 0 else a[s[0]] + SeqSum(a, s[1..])
  }

  /** Summing distinct indices that all lie in a mask never exceeds the mask's sum. */
  lemma {:induction false} SeqSumBoundedByMask(a: seq<nat>, s: seq<nat>, m: seq<bool>)
    requires |a| == |m| && Indexes(s, |a|) && Distinct(s)
    requires forall k :: 0 <= k < |s| ==> m[s[k]]
    ensures SeqSum(a, s) <= MaskSum(a, m)
  {
    if |s| > 0 {
      var x := s[0];
      var m' := m[x := false];
      assert m'[x := true] == m;
      MaskSumSet(a, m', x);
      forall k | 0 <= k < |s[1..]|
        ensures m'[s[1..][k]]
      {
        assert s[1..][k] == s[k + 1] != x;
      }
      SeqSumBoundedByMask(a, s[1..], m');
    }
  }
}
