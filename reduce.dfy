// sqrtdot and minvalue (main.cpp:50-86): parallel_reduce over a blocked_range.
// Each partition folds its own indices into a local value starting from the
// identity; the partial values are joined with the combine operator.  The
// joins of parallel_reduce combine adjacent ranges, so for an associative
// combine every join tree gives the left-to-right fold over the partitions
// in ascending order, which is what the methods below compute.

module ParallelReduce {
  import opened Partition

  /** The sum of s[lo..hi), accumulated in index order. */
  function Sum(s: seq<real>, lo: nat, hi: nat): real
    requires lo <= hi <= |s|
    decreases hi - lo
  {
    if lo == hi then 0.0 else Sum(s, lo, hi - 1) + s[hi - 1]
  }

  /** Splitting a range at any point and adding the two sums gives the sum of the whole range. */
  lemma {:induction false} SumSplit(s: seq<real>, lo: nat, mid: nat, hi: nat)
    requires lo <= mid <= hi <= |s|
    ensures Sum(s, lo, hi) == Sum(s, lo, mid) + Sum(s, mid, hi)
    decreases hi - mid
  {
    if mid < hi {
      SumSplit(s, lo, mid, hi - 1);
    }
  }

  /** The sum does not depend on anything outside its range. */
  lemma {:induction false} SumLocal(s: seq<real>, s': seq<real>, lo: nat, hi: nat)
    requires lo <= hi <= |s| && hi <= |s'|
    requires forall i :: lo <= i < hi ==> s[i] == s'[i]
    ensures Sum(s, lo, hi) == Sum(s', lo, hi)
    decreases hi - lo
  {
    if lo < hi {
      SumLocal(s, s', lo, hi - 1);
    }
  }

  /** The sum of every partition of b on its own: what the partitions hand to
      the combine step. */
  function PartitionTotals(s: seq<real>, b: seq<nat>): (t: seq<real>)
    requires |b| >= 1 && Sorted(b) && b[|b| - 1] <= |s|
  {
    seq(Count(b), j requires 0 <= j < Count(b) => Sum(s, b[j], b[j + 1]))
  }

  /** Combining one more partition total into the running combination. */
  lemma TotalsStep(s: seq<real>, b: seq<nat>, j: nat)
    requires |b| >= 1 && Sorted(b) && b[|b| - 1] <= |s|
    requires j < Count(b)
    ensures Sum(PartitionTotals(s, b), 0, j + 1) == Sum(PartitionTotals(s, b), 0, j) + Sum(s, b[j], b[j + 1])
  {
  }

  /** Combining the totals of partitions 0 .. j - 1 with + gives the sum of
      [b[0], b[j]): the partitioned sum is the sequential sum, for every
      partitioning. */
  lemma {:induction false} TotalsSum(s: seq<real>, b: seq<nat>, j: nat)
    requires |b| >= 1 && Sorted(b) && b[|b| - 1] <= |s|
    requires j <= Count(b)
    ensures Sum(PartitionTotals(s, b), 0, j) == Sum(s, b[0], b[j])
  {
    if j > 0 {
      TotalsSum(s, b, j - 1);
      TotalsStep(s, b, j - 1);
      SumSplit(s, b[0], b[j - 1], b[j]);
    }
  }

  /** The elementwise products x[i] * y[i] over the common length. */
  function Products(x: seq<real>, y: seq<real>): seq<real>
  {
    seq(Domain(x, y), i requires 0 <= i < |x| && i < |y| => x[i] * y[i])
  }

  /** The body of sqrtdot on one partition [lo, hi): the products added to a
      local sum that starts from the identity 0. */
  method LocalDot(x: seq<real>, y: seq<real>, lo: nat, hi: nat) returns (localSum: real)
    requires lo <= hi <= |Products(x, y)|
    ensures localSum == Sum(Products(x, y), lo, hi)
  {
    ghost var p := Products(x, y);
    localSum := 0.0;
    var i := lo;
    while i < hi
      invariant lo <= i <= hi
      invariant localSum == Sum(p, lo, i)
    {
      localSum := localSum + x[i] * y[i];
      i := i + 1;
    }
  }

  /** The value sqrtdot takes the square root of: the sum of x[i] * y[i] over
      i < min(|x|, |y|).  Every partition sums its products from 0, and the
      partial sums are combined with +. */
  method SqrtDot(x: seq<real>, y: seq<real>, b: seq<nat>) returns (ret: real)
    requires IsPartitioning(b, 0, |Products(x, y)|)
    ensures ret == Sum(Products(x, y), 0, |Products(x, y)|)
  {
    ghost var p := Products(x, y);
    ret := 0.0;
    var j := 0;
    while j < Count(b)
      invariant j <= Count(b)
      invariant ret == Sum(PartitionTotals(p, b), 0, j)
    {
      var localSum := LocalDot(x, y, b[j], b[j + 1]);
      TotalsStep(p, b, j);
      ret := ret + localSum;
      j := j + 1;
    }
    TotalsSum(p, b, Count(b));
  }

  /** std::min: the smaller of the two, the first one on a tie. */
  function Min(a: real, b: real): (m: real)
    ensures m <= a && m <= b
    ensures m == a || m == b
  {
    if b < a then b else a
  }

  /** The body of minvalue on one partition [lo, hi): a running minimum that
      starts from the seed.  The result is the seed or an element of the
      partition, and neither the seed nor any element of the partition is smaller. */
  method LocalMin(x: seq<real>, lo: nat, hi: nat, seed: real) returns (localMinima: real)
    requires lo <= hi <= |x|
    ensures localMinima == seed || localMinima in x[lo..hi]
    ensures localMinima <= seed
    ensures forall i :: lo <= i < hi ==> localMinima <= x[i]
  {
    localMinima := seed;
    var i := lo;
    while i < hi
      invariant lo <= i <= hi
      invariant localMinima == seed || localMinima in x[lo..i]
      invariant localMinima <= seed
      invariant forall i' :: lo <= i' < i ==> localMinima <= x[i']
    {
      assert x[lo..i + 1] == x[lo..i] + [x[i]];
      localMinima := Min(localMinima, x[i]);
      i := i + 1;
    }
  }

  /** minvalue: seeded with x[0] and run over [1, |x|).  Every partition starts
      its running minimum from the seed, and the partial minima are combined
      with Min.  The result is an element of x and no element is smaller. */
  method MinValue(x: seq<real>, b: seq<nat>) returns (ret: real)
    requires |x| >= 1
    requires IsPartitioning(b, 1, |x|)
    ensures ret in x
    ensures forall i :: 0 <= i < |x| ==> ret <= x[i]
  {
    ret := x[0];
    var j := 0;
    while j < Count(b)
      invariant j <= Count(b)
      invariant ret in x
      invariant forall i :: 0 <= i < b[j] ==> ret <= x[i]
    {
      var localMinima := LocalMin(x, b[j], b[j + 1], x[0]);
      ret := Min(ret, localMinima);
      j := j + 1;
    }
  }
}
