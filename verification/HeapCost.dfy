/** How many comparator calls heap sort makes, for any comparator. */
module HeapCost {
  import opened Products
  import opened BlockBuffer
  import opened HeapSpec

  function SiftCalls<T>(b: seq<T>, n: nat, i: nat, gt: (T, T) -> bool): nat
    requires n <= |b|
    decreases n - i
  {
    var m := Largest(b, n, i, gt);
    2 + if m == i then 0 else SiftCalls(Swap(b, i, m), n, m, gt)
  }

  function BuildCalls<T>(b: seq<T>, n: nat, k: nat, gt: (T, T) -> bool): nat
    requires n <= |b|
    decreases k
  {
    if k == 0 then 0
    else SiftCalls(b, n, k - 1, gt) + BuildCalls(SiftDown(b, n, k - 1, gt), n, k - 1, gt)
  }

  function ExtractCalls<T>(b: seq<T>, k: nat, gt: (T, T) -> bool): nat
    requires k <= |b|
    decreases k
  {
    if k == 0 then 0
    else
      var s := Swap(b, 0, k - 1);
      SiftCalls(s, k - 1, 0, gt) + ExtractCalls(SiftDown(s, k - 1, 0, gt), k - 1, gt)
  }

  function HeapSortCalls<T>(b: seq<T>, gt: (T, T) -> bool): nat {
    BuildCalls(b, |b|, |b| / 2, gt) + ExtractCalls(Build(b, |b|, |b| / 2, gt), |b|, gt)
  }

  /** How often position `k`, counted from one, can move to its left child in a heap of `n`. */
  ghost function Height(k: nat, n: nat): nat
    requires k > 0
    decreases n - k
  {
    if 2 * k <= n then 1 + Height(2 * k, n) else 0
  }

  ghost function Log2(n: nat): nat {
    if n < 2 then 0 else 1 + Log2(n / 2)
  }

  lemma {:induction false} HeightMonotone(j: nat, k: nat, n: nat)
    requires 0 < j <= k
    ensures Height(k, n) <= Height(j, n)
    decreases n - k
  {
    if 2 * k <= n {
      HeightMonotone(2 * j, 2 * k, n);
    }
  }

  lemma {:induction false} HeightHalved(k: nat, n: nat)
    requires k > 0
    ensures Height(2 * k, n) == Height(k, n / 2)
    decreases n - k
  {
    if 4 * k <= n {
      HeightHalved(2 * k, n);
    }
  }

  lemma {:induction false} HeightOfRoot(n: nat)
    ensures Height(1, n) == Log2(n)
  {
    if n >= 2 {
      HeightHalved(1, n);
      HeightOfRoot(n / 2);
    }
  }

  lemma {:induction false} Log2Monotone(m: nat, n: nat)
    requires m <= n
    ensures Log2(m) <= Log2(n)
  {
    if m >= 2 {
      Log2Monotone(m / 2, n / 2);
    }
  }

  ghost function SumOfHeights(k: nat, n: nat): nat {
    if k == 0 then 0 else Height(k, n) + SumOfHeights(k - 1, n)
  }

  lemma {:induction false} SumOfHeightsHalved(k: nat, n: nat)
    requires 2 * k <= n
    ensures SumOfHeights(k, n) == k + SumOfHeights(k, n / 2)
    decreases k
  {
    if k > 0 {
      HeightHalved(k, n);
      SumOfHeightsHalved(k - 1, n);
    }
  }

  /** The heights of all positions of a heap add up to less than its size. */
  lemma {:induction false} SumOfHeightsBound(k: nat, n: nat)
    requires n > 0
    ensures SumOfHeights(k, n) <= n - 1
    decreases n, k
  {
    if 2 * k > n {
      SumOfHeightsBound(k - 1, n);
    } else if k > 0 {
      SumOfHeightsHalved(k, n);
      SumOfHeightsBound(k, n / 2);
    }
  }

  lemma {:induction false} SiftCallsBound<T>(b: seq<T>, n: nat, i: nat, gt: (T, T) -> bool)
    requires n <= |b|
    ensures SiftCalls(b, n, i, gt) <= 2 * Height(i + 1, n) + 2
    decreases n - i
  {
    var m := Largest(b, n, i, gt);
    if m != i {
      SiftCallsBound(Swap(b, i, m), n, m, gt);
      HeightMonotone(2 * (i + 1), m + 1, n);
    }
  }

  lemma {:induction false} BuildCallsBound<T>(b: seq<T>, n: nat, k: nat, gt: (T, T) -> bool)
    requires n <= |b|
    ensures BuildCalls(b, n, k, gt) <= 2 * SumOfHeights(k, n) + 2 * k
    decreases k
  {
    if k > 0 {
      SiftCallsBound(b, n, k - 1, gt);
      BuildCallsBound(SiftDown(b, n, k - 1, gt), n, k - 1, gt);
    }
  }

  lemma {:induction false} ExtractCallsBound<T>(b: seq<T>, k: nat, gt: (T, T) -> bool, level: nat)
    requires 0 < k <= |b| && Log2(k) <= level
    ensures ExtractCalls(b, k, gt) <= 2 + 2 * Times(k - 1, level + 1)
    decreases k
  {
    var s := Swap(b, 0, k - 1);
    SiftCallsBound(s, k - 1, 0, gt);
    HeightOfRoot(k - 1);
    Log2Monotone(k - 1, k);
    if k > 1 {
      ExtractCallsBound(SiftDown(s, k - 1, 0, gt), k - 1, gt, level);
    }
  }

  lemma {:induction false} AtLeastTriple(n: nat, k: nat)
    requires k >= 3
    ensures Times(n, k) >= 3 * n
  {
    if n > 0 {
      AtLeastTriple(n - 1, k);
    }
  }

  lemma SmallSizes(n: nat, k: nat)
    requires n > 0 && k == Log2(n) + 1
    ensures 3 * n + 2 * Times(n - 1, k) <= 3 * Times(n, k)
  {
    if n >= 4 {
      assert k == 2 + Log2(n / 2) == 3 + Log2(n / 2 / 2);
      AtLeastTriple(n - 1, k);
    } else if n == 3 {
      assert Times(2, k) == Times(1, k) + k;
    }
  }

  lemma BuildCallsLinear<T>(b: seq<T>, n: nat, gt: (T, T) -> bool)
    requires n == |b| > 0
    ensures BuildCalls(b, n, n / 2, gt) <= 3 * n - 2
  {
    BuildCallsBound(b, n, n / 2, gt);
    SumOfHeightsBound(n / 2, n);
  }

  lemma SumOfPhases(build: nat, extract: nat, n: nat, k: nat)
    requires n > 0 && k == Log2(n) + 1 && build <= 3 * n - 2 && extract <= 2 + 2 * Times(n - 1, k)
    ensures build + extract <= 3 * (n * k)
  {
    SmallSizes(n, k);
    TimesIsProduct(n, k);
  }

  /** For any comparator at all: fewer than 3n calls to build the heap, at most 3n(log2 n + 1) to sort. */
  lemma HeapSortCallsBound<T>(b: seq<T>, n: nat, gt: (T, T) -> bool)
    requires n == |b| > 0
    ensures BuildCalls(b, n, n / 2, gt) < 3 * n
    ensures HeapSortCalls(b, gt) <= 3 * (n * (Log2(n) + 1))
  {
    var half := n / 2;
    var built := Build(b, n, half, gt);
    var build, extract := BuildCalls(b, n, half, gt), ExtractCalls(built, n, gt);
    assert build <= 3 * n - 2 by {
      BuildCallsLinear(b, n, gt);
    }
    assert extract <= 2 + 2 * Times(n - 1, Log2(n) + 1) by {
      ExtractCallsBound(built, n, gt, Log2(n));
    }
    SumOfPhases(build, extract, n, Log2(n) + 1);
  }

  // ---------- from below ----------

  /** No element is greater than another one. */
  ghost predicate Flat<T>(b: seq<T>, gt: (T, T) -> bool) {
    forall i, j :: 0 <= i < |b| && 0 <= j < |b| ==> !gt(b[i], b[j])
  }

  lemma SiftCallsFrom<T>(b: seq<T>, n: nat, i: nat, gt: (T, T) -> bool)
    requires n <= |b|
    ensures SiftCalls(b, n, i, gt) >= 2
    ensures Flat(b, gt) && i < |b| ==> SiftCalls(b, n, i, gt) == 2 && SiftDown(b, n, i, gt) == b
  {
  }

  lemma {:induction false} BuildCallsFrom<T>(b: seq<T>, n: nat, k: nat, gt: (T, T) -> bool)
    requires k <= n <= |b|
    ensures BuildCalls(b, n, k, gt) >= 2 * k
    ensures Flat(b, gt) ==> BuildCalls(b, n, k, gt) == 2 * k && Build(b, n, k, gt) == b
    decreases k
  {
    if k > 0 {
      SiftCallsFrom(b, n, k - 1, gt);
      BuildCallsFrom(SiftDown(b, n, k - 1, gt), n, k - 1, gt);
    }
  }

  lemma {:induction false} ExtractCallsFrom<T>(b: seq<T>, k: nat, gt: (T, T) -> bool)
    requires k <= |b|
    ensures ExtractCalls(b, k, gt) >= 2 * k
    ensures Flat(b, gt) ==> ExtractCalls(b, k, gt) == 2 * k
    decreases k
  {
    if k > 0 {
      var s := Swap(b, 0, k - 1);
      SiftCallsFrom(s, k - 1, 0, gt);
      ExtractCallsFrom(SiftDown(s, k - 1, 0, gt), k - 1, gt);
    }
  }

  /** For any comparator at least two calls for each sift, and no more when no element is greater than another. */
  lemma HeapSortCallsFrom<T>(b: seq<T>, n: nat, gt: (T, T) -> bool)
    requires n == |b|
    ensures HeapSortCalls(b, gt) >= 2 * (n / 2) + 2 * n
    ensures (forall x, y :: x in b && y in b ==> !gt(x, y)) ==> HeapSortCalls(b, gt) == 2 * (n / 2) + 2 * n
  {
    BuildCallsFrom(b, n, n / 2, gt);
    ExtractCallsFrom(Build(b, n, n / 2, gt), n, gt);
  }
}
