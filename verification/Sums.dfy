/** Sums of sizes: where the k-th of several consecutive pieces starts. */
module Sums {
  /** The sum of the first k sizes. */
  function Total(sizes: seq<nat>, k: nat): nat
    requires k <= |sizes|
  {
    if k == 0 then 0 else Total(sizes, k - 1) + sizes[k - 1]
  }

  lemma {:induction false} TotalExtends(a: seq<nat>, b: seq<nat>, k: nat)
    requires k <= |a|
    ensures Total(a + b, k) == Total(a, k)
  {
    if k != 0 {
      TotalExtends(a, b, k - 1);
    }
  }

  lemma {:induction false} TotalMonotone(sizes: seq<nat>, j: nat, k: nat)
    requires j <= k <= |sizes|
    ensures Total(sizes, j) <= Total(sizes, k)
  {
    if j < k {
      TotalMonotone(sizes, j, k - 1);
    }
  }

  /** The last size is added to the sum of the others. */
  lemma TotalOfFront(sizes: seq<nat>)
    requires sizes != []
    ensures var front, last := sizes[..|sizes| - 1], sizes[|sizes| - 1];
            Total(sizes, |sizes|) == Total(front, |front|) + last
  {
    var front, last := sizes[..|sizes| - 1], sizes[|sizes| - 1];
    assert sizes == front + [last];
    TotalExtends(front, [last], |front|);
  }

  /** Sums of sizes that are nowhere larger agree exactly if all sizes do. */
  lemma {:induction false} TotalsAgree(a: seq<nat>, b: seq<nat>, k: nat)
    requires k <= |a| == |b| && forall i :: 0 <= i < |a| ==> a[i] <= b[i]
    ensures Total(a, k) <= Total(b, k)
    ensures Total(a, k) == Total(b, k) <==> forall i :: 0 <= i < k ==> a[i] == b[i]
  {
    if k != 0 {
      TotalsAgree(a, b, k - 1);
    }
  }
}
