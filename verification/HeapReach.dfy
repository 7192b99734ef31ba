/** When heap sort hands the comparator a position outside the buffer. */
module HeapReach {
  import opened BlockBuffer
  import opened HeapSpec

  /** Whether one sift-down does: the children of position i are compared before they are tested. */
  function SiftBeyond<T>(b: seq<T>, n: nat, i: nat, total: nat, gt: (T, T) -> bool): bool
    requires n <= |b|
    decreases n - i
  {
    var m := Largest(b, n, i, gt);
    total <= 2 * i + 2 || (m != i && SiftBeyond(Swap(b, i, m), n, m, total, gt))
  }

  function BuildBeyond<T>(b: seq<T>, n: nat, k: nat, gt: (T, T) -> bool): bool
    requires n <= |b|
    decreases k
  {
    k > 0 && (SiftBeyond(b, n, k - 1, n, gt) || BuildBeyond(SiftDown(b, n, k - 1, gt), n, k - 1, gt))
  }

  function ExtractBeyond<T>(b: seq<T>, k: nat, total: nat, gt: (T, T) -> bool): bool
    requires k <= |b|
    decreases k
  {
    k > 0
    && var s := Swap(b, 0, k - 1);
       SiftBeyond(s, k - 1, 0, total, gt) || ExtractBeyond(SiftDown(s, k - 1, 0, gt), k - 1, total, gt)
  }

  function HeapSortBeyond<T>(b: seq<T>, gt: (T, T) -> bool): bool {
    BuildBeyond(b, |b|, |b| / 2, gt) || ExtractBeyond(Build(b, |b|, |b| / 2, gt), |b|, |b|, gt)
  }

  // ---------- moves into a leaf of the whole buffer ----------

  function SiftToLeaf<T>(b: seq<T>, n: nat, i: nat, total: nat, gt: (T, T) -> bool): bool
    requires n <= |b|
    decreases n - i
  {
    var m := Largest(b, n, i, gt);
    m != i && (total <= 2 * m + 1 || SiftToLeaf(Swap(b, i, m), n, m, total, gt))
  }

  function BuildToLeaf<T>(b: seq<T>, n: nat, k: nat, gt: (T, T) -> bool): bool
    requires n <= |b|
    decreases k
  {
    k > 0 && (SiftToLeaf(b, n, k - 1, n, gt) || BuildToLeaf(SiftDown(b, n, k - 1, gt), n, k - 1, gt))
  }

  function ExtractToLeaf<T>(b: seq<T>, k: nat, total: nat, gt: (T, T) -> bool): bool
    requires k <= |b|
    decreases k
  {
    k > 0
    && var s := Swap(b, 0, k - 1);
       SiftToLeaf(s, k - 1, 0, total, gt) || ExtractToLeaf(SiftDown(s, k - 1, 0, gt), k - 1, total, gt)
  }

  /** Some sift-down of the sort moves an element into a position without children. */
  function MovesToLeaf<T>(b: seq<T>, gt: (T, T) -> bool): bool {
    BuildToLeaf(b, |b|, |b| / 2, gt) || ExtractToLeaf(Build(b, |b|, |b| / 2, gt), |b|, |b|, gt)
  }

  lemma {:induction false} SiftBeyondIff<T>(b: seq<T>, n: nat, i: nat, total: nat, gt: (T, T) -> bool)
    requires n <= |b| && total % 2 == 1
    ensures SiftBeyond(b, n, i, total, gt) <==> total <= 2 * i + 2 || SiftToLeaf(b, n, i, total, gt)
    decreases n - i
  {
    var m := Largest(b, n, i, gt);
    if m != i {
      SiftBeyondIff(Swap(b, i, m), n, m, total, gt);
    }
  }

  lemma {:induction false} BuildBeyondIff<T>(b: seq<T>, n: nat, k: nat, gt: (T, T) -> bool)
    requires n <= |b| && n % 2 == 1 && k <= n / 2
    ensures BuildBeyond(b, n, k, gt) <==> BuildToLeaf(b, n, k, gt)
    decreases k
  {
    if k > 0 {
      SiftBeyondIff(b, n, k - 1, n, gt);
      BuildBeyondIff(SiftDown(b, n, k - 1, gt), n, k - 1, gt);
    }
  }

  lemma {:induction false} ExtractBeyondIff<T>(b: seq<T>, k: nat, total: nat, gt: (T, T) -> bool)
    requires k <= |b| && total % 2 == 1 && total >= 3
    ensures ExtractBeyond(b, k, total, gt) <==> ExtractToLeaf(b, k, total, gt)
    decreases k
  {
    if k > 0 {
      var s := Swap(b, 0, k - 1);
      SiftBeyondIff(s, k - 1, 0, total, gt);
      ExtractBeyondIff(SiftDown(s, k - 1, 0, gt), k - 1, total, gt);
    }
  }

  /**
   * For every comparator: a single element and every even number of elements are enough; for an odd number of at
   * least three it takes a move into a leaf, and that is enough.
   */
  lemma BeyondIff<T>(b: seq<T>, gt: (T, T) -> bool)
    ensures HeapSortBeyond(b, gt) <==> |b| == 1 || (|b| >= 2 && (|b| % 2 == 0 || MovesToLeaf(b, gt)))
  {
    var n := |b|;
    if n % 2 == 1 && n >= 3 {
      BuildBeyondIff(b, n, n / 2, gt);
      ExtractBeyondIff(Build(b, n, n / 2, gt), n, n, gt);
    } else if n >= 2 {
      assert SiftBeyond(b, n, n / 2 - 1, n, gt);
    } else if n == 1 {
      assert SiftBeyond(Swap(b, 0, 0), 0, 0, 1, gt);
    }
  }

  lemma {:induction false} NothingMoves<T>(b: seq<T>, n: nat, k: nat, gt: (T, T) -> bool)
    requires n <= |b| && k <= |b| && forall x, y :: x in b && y in b ==> !gt(x, y)
    ensures !BuildToLeaf(b, n, k, gt) && Build(b, n, k, gt) == b
    decreases k
  {
    if k > 0 {
      assert SiftDown(b, n, k - 1, gt) == b;
      NothingMoves(b, n, k - 1, gt);
    }
  }

  lemma {:induction false} NothingExtracted<T>(b: seq<T>, k: nat, total: nat, gt: (T, T) -> bool)
    requires k <= |b| && forall x, y :: x in b && y in b ==> !gt(x, y)
    ensures !ExtractToLeaf(b, k, total, gt)
    decreases k
  {
    if k > 0 {
      var s := Swap(b, 0, k - 1);
      assert forall x :: x in s ==> x in b;
      assert SiftDown(s, k - 1, 0, gt) == s;
      NothingExtracted(s, k - 1, total, gt);
    }
  }

  /** So an odd number of equals, three or more, stays inside. */
  lemma EqualsStayInside<T>(b: seq<T>, gt: (T, T) -> bool)
    requires |b| % 2 == 1 && |b| >= 3 && forall x, y :: x in b && y in b ==> !gt(x, y)
    ensures !HeapSortBeyond(b, gt)
  {
    BeyondIff(b, gt);
    NothingMoves(b, |b|, |b| / 2, gt);
    NothingExtracted(b, |b|, |b|, gt);
  }
}
