// The index-range partitioning shared by every primitive of main.cpp.
//
// A blocked_range over [lo, hi) is cut by the scheduler into contiguous,
// disjoint, ordered half-open ranges.  Here a partitioning is the sequence of
// its boundaries lo = b[0] <= b[1] <= ... <= b[k] = hi; partition j is the
// range [b[j], b[j+1]).  The order in which a parallel_for runs its partitions
// is a schedule: a sequence holding every partition index exactly once.

module Partition {

  /** The boundaries never decrease. */
  predicate Sorted(b: seq<nat>) {
    forall p, q :: 0 <= p <= q < |b| ==> b[p] <= b[q]
  }

  /** b cuts [lo, hi) into |b| - 1 contiguous partitions. */
  predicate IsPartitioning(b: seq<nat>, lo: nat, hi: nat) {
    |b| >= 1 && b[0] == lo && b[|b| - 1] == hi && Sorted(b)
  }

  /** The number of partitions of a partitioning. */
  function Count(b: seq<nat>): nat
    requires |b| >= 1
  {
    |b| - 1
  }

  /** Index i lies in partition j. */
  predicate InPart(b: seq<nat>, j: nat, i: nat)
    requires j + 1 < |b|
  {
    b[j] <= i < b[j + 1]
  }

  /** order runs each of the k partitions exactly once. */
  predicate IsSchedule(order: seq<nat>, k: nat) {
    && (forall t :: 0 <= t < |order| ==> order[t] < k)
    && (forall s, t :: 0 <= s < t < |order| ==> order[s] != order[t])
    && (forall j :: 0 <= j < k ==> j in order)
  }

  /** The schedule that runs the partitions in ascending order. */
  predicate IsAscending(order: seq<nat>) {
    forall t :: 0 <= t < |order| ==> order[t] == t
  }

  /** The partition that holds index i: every index of [b[0], b[last]) lies in one. */
  function PartOf(b: seq<nat>, i: nat): (j: nat)
    requires Sorted(b) && |b| >= 1 && b[0] <= i < b[|b| - 1]
    ensures j + 1 < |b| && InPart(b, j, i)
    decreases |b|
  {
    if b[|b| - 2] <= i then |b| - 2 else PartOf(b[..|b| - 1], i)
  }

  /** Partitions are disjoint: an index lies in no partition but its own. */
  lemma PartOfUnique(b: seq<nat>, j: nat, i: nat)
    requires Sorted(b) && j + 1 < |b| && InPart(b, j, i)
    ensures PartOf(b, i) == j
  {
  }

  /** Once the schedule has run, every partition has run. */
  lemma ScheduleComplete(order: seq<nat>, k: nat, j: nat)
    requires IsSchedule(order, k) && j < k
    ensures j in order[..|order|]
  {
    assert order[..|order|] == order;
  }

  /** A partition that runs at step t has not run before. */
  lemma ScheduleFresh(order: seq<nat>, k: nat, t: nat)
    requires IsSchedule(order, k) && t < |order|
    ensures order[t] !in order[..t]
  {
  }

  /** Taking the last partition out of a schedule leaves a schedule of the others. */
  lemma ScheduleRemove(order: seq<nat>, k: nat, p: nat)
    requires IsSchedule(order, k) && p < |order| && order[p] == k - 1
    ensures IsSchedule(order[..p] + order[p + 1..], k - 1)
  {
    var rest := order[..p] + order[p + 1..];
    forall j | 0 <= j < k - 1
      ensures j in rest
    {
      assert j in order;
      var q :| 0 <= q < |order| && order[q] == j;
      if q < p {
        assert rest[q] == j;
      } else {
        assert rest[q - 1] == j;
      }
    }
  }

  /** The first step of a schedule runs one of its partitions. */
  lemma ScheduleHead(order: seq<nat>, k: nat)
    requires IsSchedule(order, k)
    ensures |order| > 0 ==> order[0] < k
  {
  }

  /** With no partitions the schedule runs nothing. */
  lemma ScheduleEmpty(order: seq<nat>)
    requires IsSchedule(order, 0)
    ensures order == []
  {
    ScheduleHead(order, 0);
  }

  /** The common length of two input vectors, min(|x|, |y|): the index range
      sqrtdot and magicfilter run over. */
  function Domain(x: seq<real>, y: seq<real>): nat {
    if |x| <= |y| then |x| else |y|
  }
}
