// fill and saxpy (main.cpp:17-48): parallel_for over a blocked_range, each
// partition writing only its own indices.  The partitions run one after the
// other in an arbitrary schedule; the contracts hold for every partitioning
// and every schedule.

module ParallelMap {
  import opened Partition

  /** fill: arr[i] := func(i) for every index; returns a copy of arr. */
  method Fill(arr: array<real>, func: nat -> real, b: seq<nat>, order: seq<nat>)
    returns (r: seq<real>)
    requires IsPartitioning(b, 0, arr.Length)
    requires IsSchedule(order, Count(b))
    modifies arr
    ensures forall i :: 0 <= i < arr.Length ==> arr[i] == func(i)
    ensures r == arr[..]
  {
    var t := 0;
    while t < |order|
      invariant t <= |order|
      invariant forall i :: 0 <= i < arr.Length && PartOf(b, i) in order[..t] ==> arr[i] == func(i)
    {
      var j := order[t];
      var i := b[j];
      while i < b[j + 1]
        invariant b[j] <= i <= b[j + 1]
        invariant forall i' :: b[j] <= i' < i ==> arr[i'] == func(i')
        invariant forall i' :: 0 <= i' < arr.Length && PartOf(b, i') in order[..t] ==> arr[i'] == func(i')
      {
        arr[i] := func(i);
        i := i + 1;
      }
      forall i' | 0 <= i' < arr.Length && PartOf(b, i') in order[..t + 1]
        ensures arr[i'] == func(i')
      {
        assert order[..t + 1] == order[..t] + [j];
        if PartOf(b, i') == j {
          assert InPart(b, j, i');
        }
      }
      t := t + 1;
    }
    forall i | 0 <= i < arr.Length
      ensures arr[i] == func(i)
    {
      ScheduleComplete(order, Count(b), PartOf(b, i));
    }
    r := arr[..];
  }

  /** saxpy: x[i] := a * x[i] + y[i].  Each partition computes its values into a
      local buffer from the still unchanged x, then copies the buffer back over
      its own range. */
  method Saxpy(a: real, x: array<real>, y: seq<real>, b: seq<nat>, order: seq<nat>)
    requires |y| >= x.Length
    requires IsPartitioning(b, 0, x.Length)
    requires IsSchedule(order, Count(b))
    modifies x
    ensures forall i :: 0 <= i < x.Length ==> x[i] == a * old(x[i]) + y[i]
  {
    var t := 0;
    while t < |order|
      invariant t <= |order|
      invariant forall i :: 0 <= i < x.Length ==>
        x[i] == if PartOf(b, i) in order[..t] then a * old(x[i]) + y[i] else old(x[i])
    {
      var j := order[t];
      ScheduleFresh(order, Count(b), t);
      var begin := b[j];
      forall i | begin <= i < b[j + 1]
        ensures x[i] == old(x[i])
      {
        PartOfUnique(b, j, i);
      }
      var local: seq<real> := [];
      var i := begin;
      while i < b[j + 1]
        invariant begin <= i <= b[j + 1]
        invariant |local| == i - begin
        invariant forall m :: 0 <= m < |local| ==> local[m] == a * old(x[begin + m]) + y[begin + m]
      {
        local := local + [a * x[i] + y[i]];
        i := i + 1;
      }
      // std::copy of the local buffer to x.begin() + begin
      var m := 0;
      while m < |local|
        invariant m <= |local|
        invariant forall i' :: 0 <= i' < x.Length ==>
          x[i'] == if PartOf(b, i') in order[..t] || begin <= i' < begin + m
                   then a * old(x[i']) + y[i'] else old(x[i'])
      {
        x[begin + m] := local[m];
        m := m + 1;
      }
      forall i' | 0 <= i' < x.Length
        ensures x[i'] == if PartOf(b, i') in order[..t + 1] then a * old(x[i']) + y[i'] else old(x[i'])
      {
        assert order[..t + 1] == order[..t] + [j];
        if InPart(b, j, i') {
          PartOfUnique(b, j, i');
        }
      }
      t := t + 1;
    }
    forall i | 0 <= i < x.Length
      ensures x[i] == a * old(x[i]) + y[i]
    {
      ScheduleComplete(order, Count(b), PartOf(b, i));
    }
  }
}
