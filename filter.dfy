// magicfilter (main.cpp:88-116): every partition applies a three-way rule to
// its indices in ascending order, collecting what it emits in a local list,
// and then appends that list to the shared output under a mutex.  The lists
// therefore reach the output in the order in which the partitions finish,
// modelled as the schedule `order`.

module ParallelFilter {
  import opened Partition

  /** What index i contributes: x[i] when x[i] > y[i]; y[i] then x[i] * y[i]
      when y[i] > 0.5 and y[i] > x[i]; otherwise nothing. */
  function Emit(xi: real, yi: real): seq<real> {
    if xi > yi then [xi]
    else if yi > 0.5 && yi > xi then [yi, xi * yi]
    else []
  }

  /** The rule run sequentially over [lo, hi): what index i contributes comes
      before what index i + 1 contributes.  It emits at most two values per index. */
  function Filtered(x: seq<real>, y: seq<real>, lo: nat, hi: nat): (r: seq<real>)
    requires lo <= hi && hi <= |x| && hi <= |y|
    ensures |r| <= 2 * (hi - lo)
    decreases hi - lo
  {
    if lo == hi then [] else Filtered(x, y, lo, hi - 1) + Emit(x[hi - 1], y[hi - 1])
  }

  /** The rule over a range is the rule over its two halves, concatenated. */
  lemma {:induction false} FilteredSplit(x: seq<real>, y: seq<real>, lo: nat, mid: nat, hi: nat)
    requires lo <= mid <= hi && hi <= |x| && hi <= |y|
    ensures Filtered(x, y, lo, hi) == Filtered(x, y, lo, mid) + Filtered(x, y, mid, hi)
    decreases hi - mid
  {
    if mid < hi {
      FilteredSplit(x, y, lo, mid, hi - 1);
    }
  }

  /** The local list of every partition, by partition index. */
  function LocalLists(x: seq<real>, y: seq<real>, b: seq<nat>): seq<seq<real>>
    requires IsPartitioning(b, 0, Domain(x, y))
  {
    seq(Count(b), j requires 0 <= j < Count(b) => Filtered(x, y, b[j], b[j + 1]))
  }

  /** The lists concatenated in index order. */
  function Flatten(lists: seq<seq<real>>): seq<real> {
    if lists == [] then [] else Flatten(lists[..|lists| - 1]) + lists[|lists| - 1]
  }

  /** The list of partition j, empty for an index that names no list. */
  function ListAt(lists: seq<seq<real>>, j: nat): seq<real> {
    if j < |lists| then lists[j] else []
  }

  /** The lists named by js, concatenated in the order of js: what the shared
      output holds once the partitions in js have appended theirs. */
  function Appended(lists: seq<seq<real>>, js: seq<nat>): seq<real> {
    if js == [] then [] else Appended(lists, js[..|js| - 1]) + ListAt(lists, js[|js| - 1])
  }

  /** Appending the list of the partition that runs at step t. */
  lemma AppendedSnoc(lists: seq<seq<real>>, js: seq<nat>, t: nat)
    requires t < |js|
    ensures Appended(lists, js[..t + 1]) == Appended(lists, js[..t]) + ListAt(lists, js[t])
  {
    assert js[..t + 1][..t] == js[..t];
  }

  /** The local lists of the first j partitions in index order are the rule
      run sequentially over [0, b[j]). */
  lemma {:induction false} FlattenLocal(x: seq<real>, y: seq<real>, b: seq<nat>, j: nat)
    requires IsPartitioning(b, 0, Domain(x, y))
    requires j <= Count(b)
    ensures Flatten(LocalLists(x, y, b)[..j]) == Filtered(x, y, 0, b[j])
  {
    if j > 0 {
      var lists := LocalLists(x, y, b);
      assert lists[..j][..j - 1] == lists[..j - 1];
      FlattenLocal(x, y, b, j - 1);
      FilteredSplit(x, y, 0, b[j - 1], b[j]);
    }
  }

  /** Appending two runs of lists one after the other concatenates their outputs. */
  lemma {:induction false} AppendedAppend(lists: seq<seq<real>>, js: seq<nat>, ks: seq<nat>)
    ensures Appended(lists, js + ks) == Appended(lists, js) + Appended(lists, ks)
    decreases |ks|
  {
    if ks == [] {
      assert js + ks == js;
    } else {
      var ks' := ks[..|ks| - 1];
      var l := ListAt(lists, ks[|ks| - 1]);
      assert (js + ks)[..|js + ks| - 1] == js + ks';
      AppendedAppend(lists, js, ks');
      calc {
        Appended(lists, js + ks);
        Appended(lists, js + ks') + l;
        (Appended(lists, js) + Appended(lists, ks')) + l;
        Appended(lists, js) + (Appended(lists, ks') + l);
      }
    }
  }

  /** Cutting a run at step p: what runs before p, then list js[p], then what
      runs after it. */
  lemma AppendedCut(lists: seq<seq<real>>, js: seq<nat>, p: nat)
    requires p < |js|
    ensures Appended(lists, js) == Appended(lists, js[..p]) + ListAt(lists, js[p]) + Appended(lists, js[p + 1..])
    ensures Appended(lists, js[..p] + js[p + 1..]) == Appended(lists, js[..p]) + Appended(lists, js[p + 1..])
  {
    var a, c := js[..p], js[p + 1..];
    var l := ListAt(lists, js[p]);
    assert js == (a + [js[p]]) + c;
    assert [js[p]][..0] == [];
    assert Appended(lists, [js[p]]) == l;
    AppendedAppend(lists, a, [js[p]]);
    AppendedAppend(lists, a + [js[p]], c);
    AppendedAppend(lists, a, c);
    calc {
      Appended(lists, js);
      Appended(lists, a + [js[p]]) + Appended(lists, c);
      Appended(lists, a) + l + Appended(lists, c);
    }
  }

  /** Moving a block of values to the end keeps the multiset of values. */
  lemma MultisetSwap(a: seq<real>, f: seq<real>, c: seq<real>, g: seq<real>)
    requires multiset(a + c) == multiset(g)
    ensures multiset(a + f + c) == multiset(g + f)
  {
    calc {
      multiset(a + f + c);
      multiset(a) + multiset(f) + multiset(c);
      multiset(a + c) + multiset(f);
    }
  }

  /** The inductive step of AppendedAnyOrder: list k - 1 is appended at step p. */
  lemma AppendedStep(lists: seq<seq<real>>, js: seq<nat>, p: nat, k: nat)
    requires 0 < k <= |lists|
    requires p < |js| && js[p] == k - 1
    requires multiset(Appended(lists, js[..p] + js[p + 1..])) == multiset(Flatten(lists[..k - 1]))
    ensures multiset(Appended(lists, js)) == multiset(Flatten(lists[..k]))
  {
    AppendedCut(lists, js, p);
    FlattenSnoc(lists, k);
    MultisetSwap(Appended(lists, js[..p]), ListAt(lists, k - 1), Appended(lists, js[p + 1..]), Flatten(lists[..k - 1]));
  }

  /** The first k lists in index order are the first k - 1 followed by list k - 1. */
  lemma FlattenSnoc(lists: seq<seq<real>>, k: nat)
    requires 0 < k <= |lists|
    ensures Flatten(lists[..k]) == Flatten(lists[..k - 1]) + ListAt(lists, k - 1)
  {
    assert lists[..k][..k - 1] == lists[..k - 1];
  }

  /** Whatever order the first k lists are appended in, the output holds the
      same values, with the same multiplicities, as the lists in index order. */
  lemma {:induction false} AppendedAnyOrder(lists: seq<seq<real>>, js: seq<nat>, k: nat)
    requires k <= |lists|
    requires IsSchedule(js, k)
    ensures multiset(Appended(lists, js)) == multiset(Flatten(lists[..k]))
    decreases k
  {
    if k == 0 {
      ScheduleEmpty(js);
    } else {
      assert k - 1 in js;
      var p :| 0 <= p < |js| && js[p] == k - 1;
      ScheduleRemove(js, k, p);
      AppendedAnyOrder(lists, js[..p] + js[p + 1..], k - 1);
      AppendedStep(lists, js, p, k);
    }
  }

  /** Appending in ascending order gives the lists in index order. */
  lemma {:induction false} AppendedAscending(lists: seq<seq<real>>, js: seq<nat>)
    requires |js| <= |lists|
    requires IsAscending(js)
    ensures Appended(lists, js) == Flatten(lists[..|js|])
  {
    if js != [] {
      var n := |js| - 1;
      assert lists[..|js|][..n] == lists[..n];
      AppendedAscending(lists, js[..n]);
    }
  }

  /** The body run on one partition [lo, hi): the rule applied to each index
      in ascending order, pushed onto a local list. */
  method LocalFilter(x: seq<real>, y: seq<real>, lo: nat, hi: nat) returns (localRes: seq<real>)
    requires lo <= hi && hi <= |x| && hi <= |y|
    ensures localRes == Filtered(x, y, lo, hi)
  {
    localRes := [];
    var i := lo;
    while i < hi
      invariant lo <= i <= hi
      invariant localRes == Filtered(x, y, lo, i)
    {
      ghost var before := localRes;
      if x[i] > y[i] {
        localRes := localRes + [x[i]];
      } else if y[i] > 0.5 && y[i] > x[i] {
        localRes := localRes + [y[i]];
        localRes := localRes + [x[i] * y[i]];
      }
      assert localRes == before + Emit(x[i], y[i]);
      i := i + 1;
    }
  }

  /** magicfilter as written: the partitions' lists are appended in the order
      in which the partitions finish.  The output is always a rearrangement of
      the sequential rule's output, no longer than twice the domain; it is that
      output itself when the partitions finish in ascending order. */
  method MagicFilter(x: seq<real>, y: seq<real>, b: seq<nat>, order: seq<nat>) returns (res: seq<real>)
    requires IsPartitioning(b, 0, Domain(x, y))
    requires IsSchedule(order, Count(b))
    ensures res == Appended(LocalLists(x, y, b), order)
    ensures multiset(res) == multiset(Filtered(x, y, 0, Domain(x, y)))
    ensures |res| <= 2 * Domain(x, y)
    ensures IsAscending(order) ==> res == Filtered(x, y, 0, Domain(x, y))
  {
    ghost var lists := LocalLists(x, y, b);
    res := [];
    var t := 0;
    while t < |order|
      invariant t <= |order|
      invariant res == Appended(lists, order[..t])
    {
      var j := order[t];
      var localRes := LocalFilter(x, y, b[j], b[j + 1]);
      AppendedSnoc(lists, order, t);
      res := res + localRes;
      t := t + 1;
    }
    assert order[..|order|] == order;
    FilteredOutput(x, y, b, order);
    assert |res| == |multiset(res)| == |Filtered(x, y, 0, Domain(x, y))|;
  }

  /** What the merged output of magicfilter is, against the sequential rule. */
  lemma FilteredOutput(x: seq<real>, y: seq<real>, b: seq<nat>, order: seq<nat>)
    requires IsPartitioning(b, 0, Domain(x, y))
    requires IsSchedule(order, Count(b))
    ensures multiset(Appended(LocalLists(x, y, b), order)) == multiset(Filtered(x, y, 0, Domain(x, y)))
    ensures IsAscending(order) ==> Appended(LocalLists(x, y, b), order) == Filtered(x, y, 0, Domain(x, y))
  {
    var lists := LocalLists(x, y, b);
    assert lists[..Count(b)] == lists;
    FlattenLocal(x, y, b, Count(b));
    AppendedAnyOrder(lists, order, Count(b));
    if IsAscending(order) {
      ScheduleLength(order, Count(b));
      AppendedAscending(lists, order);
    }
  }

  /** An ascending schedule of k partitions has exactly k steps. */
  lemma ScheduleLength(order: seq<nat>, k: nat)
    requires IsSchedule(order, k) && IsAscending(order)
    ensures |order| == k
  {
    if |order| > 0 {
      assert order[|order| - 1] == |order| - 1;
    }
    if k > 0 {
      assert k - 1 in order;
    }
  }

  /** Completion order is not index order: with x = [0.9, 0.2], y = [0.1, 0.9]
      cut into [0, 1) and [1, 2), the second partition finishing first puts
      [0.9, 0.18] ahead of [0.9], while the rule run sequentially gives
      [0.9, 0.9, 0.18]. */
  lemma CompletionOrderReorders()
    ensures IsSchedule([1, 0], 2)
    ensures Appended(LocalLists([0.9, 0.2], [0.1, 0.9], [0, 1, 2]), [1, 0]) == [0.9, 0.18, 0.9]
    ensures Filtered([0.9, 0.2], [0.1, 0.9], 0, 2) == [0.9, 0.9, 0.18]
  {
    var x, y := [0.9, 0.2], [0.1, 0.9];
    var lists := LocalLists(x, y, [0, 1, 2]);
    ExampleLists();
    assert [1, 0][..1] == [1];
    assert [1][..0] == [];
    assert Appended(lists, [1]) == [0.9, 0.18];
    FilteredSplit(x, y, 0, 1, 2);
  }

  /** The local lists of the two partitions of CompletionOrderReorders. */
  lemma ExampleLists()
    ensures Filtered([0.9, 0.2], [0.1, 0.9], 0, 1) == [0.9]
    ensures Filtered([0.9, 0.2], [0.1, 0.9], 1, 2) == [0.9, 0.18]
    ensures LocalLists([0.9, 0.2], [0.1, 0.9], [0, 1, 2]) == [[0.9], [0.9, 0.18]]
  {
    var x, y := [0.9, 0.2], [0.1, 0.9];
    assert Emit(0.9, 0.1) == [0.9];
    assert Emit(0.2, 0.9) == [0.9, 0.18];
    assert Filtered(x, y, 0, 1) == [] + Emit(0.9, 0.1);
    assert Filtered(x, y, 1, 2) == [] + Emit(0.2, 0.9);
  }

  /** magicfilter with the ordering fixed: every partition stores its local
      list in a slot of its own, whichever order they finish in, and the slots
      are concatenated in ascending partition order once all have finished.
      The output is then exactly the sequential rule's output. */
  method MagicFilterOrdered(x: seq<real>, y: seq<real>, b: seq<nat>, order: seq<nat>) returns (res: seq<real>)
    requires IsPartitioning(b, 0, Domain(x, y))
    requires IsSchedule(order, Count(b))
    ensures res == Filtered(x, y, 0, Domain(x, y))
  {
    var slots: seq<seq<real>> := seq(Count(b), _ => []);
    var t := 0;
    while t < |order|
      invariant t <= |order|
      invariant |slots| == Count(b)
      invariant forall j :: 0 <= j < Count(b) && j in order[..t] ==> slots[j] == Filtered(x, y, b[j], b[j + 1])
    {
      var j := order[t];
      var localRes := LocalFilter(x, y, b[j], b[j + 1]);
      assert order[..t + 1] == order[..t] + [j];
      slots := slots[j := localRes];
      t := t + 1;
    }
    res := [];
    var j := 0;
    while j < Count(b)
      invariant j <= Count(b)
      invariant res == Filtered(x, y, 0, b[j])
    {
      ScheduleComplete(order, Count(b), j);
      FilteredSplit(x, y, 0, b[j], b[j + 1]);
      res := res + slots[j];
      j := j + 1;
    }
  }
}
