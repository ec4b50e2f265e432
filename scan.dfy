// scanner (main.cpp:118-137): parallel_scan computing the inclusive prefix sum
// of x in place.  One body serves both phases: it adds the elements of its
// range to a running sum that starts from the value it is given, and writes
// each running sum back only when the phase is final.  The pre-scan phase
// runs the body on every partition from 0 to get the partition totals; the
// combine step adds up the totals before each partition; the final phase runs
// the body on every partition, starting from that sum.  Both phases take any
// schedule: each body reads and writes only its own range.

module ParallelScan {
  import opened Partition
  import opened ParallelReduce

  /** The body of the scan on [lo, hi), starting from localSum = init. */
  method ScanBody(x: array<real>, lo: nat, hi: nat, init: real, isFinal: bool) returns (localSum: real)
    requires lo <= hi <= x.Length
    modifies x
    ensures localSum == init + Sum(old(x[..]), lo, hi)
    ensures forall i :: 0 <= i < x.Length ==>
      x[i] == if isFinal && lo <= i < hi then init + Sum(old(x[..]), lo, i + 1) else old(x[i])
  {
    localSum := init;
    var i := lo;
    while i < hi
      invariant lo <= i <= hi
      invariant localSum == init + Sum(old(x[..]), lo, i)
      invariant forall i' :: 0 <= i' < x.Length ==>
        x[i'] == if isFinal && lo <= i' < i then init + Sum(old(x[..]), lo, i' + 1) else old(x[i'])
    {
      localSum := localSum + x[i];
      if isFinal {
        x[i] := localSum;
      }
      i := i + 1;
    }
  }

  /** The offset of a partition plus the running sum within it is the global
      inclusive prefix sum. */
  lemma OffsetPlusRunning(orig: seq<real>, cur: seq<real>, lo: nat, hi: nat, i: nat)
    requires lo <= i < hi <= |orig| && hi <= |cur|
    requires forall i' :: lo <= i' < hi ==> cur[i'] == orig[i']
    ensures Sum(orig, 0, lo) + Sum(cur, lo, i + 1) == Sum(orig, 0, i + 1)
  {
    SumLocal(cur, orig, lo, i + 1);
    SumSplit(orig, 0, lo, i + 1);
  }

  /** The state of x during the final phase: the partitions in done hold their
      global prefix sums, every other index its original value. */
  ghost predicate FinalDone(cur: seq<real>, orig: seq<real>, b: seq<nat>, done: seq<nat>)
    requires IsPartitioning(b, 0, |orig|) && |cur| == |orig|
  {
    forall i :: 0 <= i < |orig| ==>
      cur[i] == if PartOf(b, i) in done then Sum(orig, 0, i + 1) else orig[i]
  }

  /** A partition about to run its final body still sees the original values
      over its range. */
  lemma FinalReady(cur: seq<real>, orig: seq<real>, b: seq<nat>, order: seq<nat>, t: nat)
    requires IsPartitioning(b, 0, |orig|) && |cur| == |orig|
    requires IsSchedule(order, Count(b)) && t < |order|
    requires FinalDone(cur, orig, b, order[..t])
    ensures forall i :: b[order[t]] <= i < b[order[t] + 1] ==> cur[i] == orig[i]
  {
    var j := order[t];
    ScheduleFresh(order, Count(b), t);
    forall i | b[j] <= i < b[j + 1]
      ensures cur[i] == orig[i]
    {
      PartOfUnique(b, j, i);
    }
  }

  /** One final body, started from the + of the totals before its partition,
      adds that partition to the finished ones. */
  lemma FinalStep(before: seq<real>, after: seq<real>, orig: seq<real>, b: seq<nat>, order: seq<nat>, t: nat)
    requires IsPartitioning(b, 0, |orig|) && |before| == |orig| && |after| == |orig|
    requires IsSchedule(order, Count(b)) && t < |order|
    requires FinalDone(before, orig, b, order[..t])
    requires forall i :: b[order[t]] <= i < b[order[t] + 1] ==> before[i] == orig[i]
    requires forall i :: 0 <= i < |orig| ==>
      after[i] == if b[order[t]] <= i < b[order[t] + 1]
                  then Sum(orig, 0, b[order[t]]) + Sum(before, b[order[t]], i + 1)
                  else before[i]
    ensures FinalDone(after, orig, b, order[..t + 1])
  {
    var j := order[t];
    assert order[..t + 1] == order[..t] + [j];
    forall i | 0 <= i < |orig|
      ensures after[i] == if PartOf(b, i) in order[..t + 1] then Sum(orig, 0, i + 1) else orig[i]
    {
      if InPart(b, j, i) {
        PartOfUnique(b, j, i);
        OffsetPlusRunning(orig, before, b[j], b[j + 1], i);
      }
    }
  }

  /** The pre-scan phase: the body runs on every partition from 0 without
      writing, in any schedule; what it returns is that partition's total,
      kept in the partition's own slot. */
  method PreScan(x: array<real>, b: seq<nat>, order: seq<nat>) returns (totals: seq<real>)
    requires IsPartitioning(b, 0, x.Length)
    requires IsSchedule(order, Count(b))
    modifies x
    ensures x[..] == old(x[..])
    ensures totals == PartitionTotals(x[..], b)
  {
    totals := seq(Count(b), _ => 0.0);
    var t := 0;
    while t < |order|
      invariant t <= |order|
      invariant |totals| == Count(b)
      invariant x[..] == old(x[..])
      invariant forall j :: 0 <= j < Count(b) && j in order[..t] ==> totals[j] == Sum(x[..], b[j], b[j + 1])
    {
      var j := order[t];
      var total := ScanBody(x, b[j], b[j + 1], 0.0, false);
      assert x[..] == old(x[..]);
      assert order[..t + 1] == order[..t] + [j];
      totals := totals[j := total];
      t := t + 1;
    }
    forall j | 0 <= j < Count(b)
      ensures totals[j] == PartitionTotals(x[..], b)[j]
    {
      ScheduleComplete(order, Count(b), j);
    }
  }

  /** The combine step: the + of the totals before each partition, which is
      the value that partition's final body starts from, and the + of all
      totals. */
  method Offsets(totals: seq<real>) returns (offsets: seq<real>, total: real)
    ensures |offsets| == |totals|
    ensures forall j :: 0 <= j < |totals| ==> offsets[j] == Sum(totals, 0, j)
    ensures total == Sum(totals, 0, |totals|)
  {
    offsets := [];
    total := 0.0;
    while |offsets| < |totals|
      invariant |offsets| <= |totals|
      invariant forall j :: 0 <= j < |offsets| ==> offsets[j] == Sum(totals, 0, j)
      invariant total == Sum(totals, 0, |offsets|)
    {
      offsets := offsets + [total];
      total := total + totals[|offsets| - 1];
    }
  }

  /** The final phase, in any schedule: partition j starts from the + of the
      totals of the partitions before it and writes its running sums over its
      own range.  Returns the + of all totals. */
  method FinalScan(x: array<real>, b: seq<nat>, order: seq<nat>, totals: seq<real>) returns (ret: real)
    requires IsPartitioning(b, 0, x.Length)
    requires IsSchedule(order, Count(b))
    requires totals == PartitionTotals(x[..], b)
    modifies x
    ensures forall i :: 0 <= i < x.Length ==> x[i] == Sum(old(x[..]), 0, i + 1)
    ensures ret == Sum(old(x[..]), 0, x.Length)
  {
    ghost var orig := x[..];
    var offsets;
    offsets, ret := Offsets(totals);
    var t := 0;
    while t < |order|
      invariant t <= |order|
      invariant |orig| == x.Length
      invariant FinalDone(x[..], orig, b, order[..t])
    {
      var j := order[t];
      ghost var before := x[..];
      FinalReady(before, orig, b, order, t);
      TotalsSum(orig, b, j);
      var last := ScanBody(x, b[j], b[j + 1], offsets[j], true);
      FinalStep(before, x[..], orig, b, order, t);
      t := t + 1;
    }
    forall i | 0 <= i < x.Length
      ensures x[i] == Sum(orig, 0, i + 1)
    {
      ScheduleComplete(order, Count(b), PartOf(b, i));
      assert x[..][i] == x[i];
    }
    TotalsSum(orig, b, Count(b));
  }

  /** scanner: afterwards x[i] is the sum of the original x[0..i], and the
      result is the sum of all of the original x (0 when x is empty). */
  method Scanner(x: array<real>, b: seq<nat>, preOrder: seq<nat>, finalOrder: seq<nat>) returns (ret: real)
    requires IsPartitioning(b, 0, x.Length)
    requires IsSchedule(preOrder, Count(b)) && IsSchedule(finalOrder, Count(b))
    modifies x
    ensures forall i :: 0 <= i < x.Length ==> x[i] == Sum(old(x[..]), 0, i + 1)
    ensures ret == Sum(old(x[..]), 0, x.Length)
  {
    var totals := PreScan(x, b, preOrder);
    ret := FinalScan(x, b, finalOrder, totals);
  }
}
