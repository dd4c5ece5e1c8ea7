// Queues of distinct process ids, and how long they can get.
module PidQueue {
  type Pid = nat

  predicate DistinctPids(q: seq<Pid>) {
    forall i, j | 0 <= i < j < |q| :: q[i] != q[j]
  }

  /** A queue of distinct members of a set is no longer than the set. */
  lemma {:induction false} QueueFits(q: seq<Pid>, from: set<Pid>)
    requires DistinctPids(q) && forall x | x in q :: x in from
    ensures |q| <= |from|
    decreases |q|
  {
    if q == [] {
    } else {
      forall x | x in q[1..]
        ensures x in from - {q[0]}
      {
      }
      QueueFits(q[1..], from - {q[0]});
    }
  }
}
