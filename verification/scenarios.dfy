/** Concrete detector states: what the column check grants and refuses. */
module Scenarios {
  import opened Options
  import opened DeadlockDetection

  /** Thread A holds one unit of resource 0 while three more are free, and asks for another: granted. */
  lemma SafeStateAccepted()
    ensures Request(Detector([3, 0], [[1, 0]], [[0, 0]]), [Some(0)], 0, 0).granted
  {
  }

  /** One lock, held by A; B asks for it. This is contention, not deadlock: granted, and B will block. */
  lemma ContentionIsNotDeadlock()
    ensures Request(Detector([0], [[1], [0]], [[0], [0]]), [Some(0), Some(1)], 1, 0).granted
  {
  }

  /** The only thread asks again for the lock it already holds: refused, and the tables are left as they were. */
  lemma RelockRefused()
    ensures Request(Detector([0], [[1]], [[0]]), [Some(0)], 0, 0) == Verdict(false, Detector([0], [[1]], [[0]]))
  {
  }

  /**
   * Two threads each hold one lock and ask for the other's. Only the requested
   * column is examined, so both requests are granted.
   */
  lemma CircularWaitAccepted()
    ensures var d := Detector([0, 0], [[1, 0], [0, 1]], [[0, 0], [0, 0]]);
      var v := Request(d, [Some(0), Some(1)], 0, 1);
      v.granted && Request(v.detector, [Some(0), Some(1)], 1, 0).granted
  {
  }
}
