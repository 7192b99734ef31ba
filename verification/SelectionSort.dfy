/** Selection sort, whose outer loop bound wraps around for an empty buffer. */
module SelectionSort {
  import opened Common
  import opened Products
  import opened BlockBuffer
  import opened Ordering

  // ---------- the algorithm on a sequence of elements ----------

  /** The inner loop from position `j`, with `m` the best position so far. */
  function MinIndex<T>(b: seq<T>, m: nat, j: nat, gt: (T, T) -> bool): (r: nat)
    requires m < j
    ensures r == m || (j <= r < |b|)
    decreases |b| - j
  {
    if j >= |b| then m else MinIndex(b, if gt(b[m], b[j]) then j else m, j + 1, gt)
  }

  /** One iteration of the outer loop. */
  function Select<T>(b: seq<T>, i: nat, gt: (T, T) -> bool): (r: seq<T>)
    ensures |r| == |b|
  {
    var m := MinIndex(b, i, i + 1, gt);
    if m != i then Swap(b, m, i) else b
  }

  /** The outer loop from position `i` up to `bound`. */
  function SelectFrom<T>(b: seq<T>, i: nat, bound: nat, gt: (T, T) -> bool): (r: seq<T>)
    ensures |r| == |b|
    decreases bound - i
  {
    if i >= bound then b else SelectFrom(Select(b, i, gt), i + 1, bound, gt)
  }

  /** number_of_elements - 1U */
  function Bound(n: nat): nat {
    (n + UINT32_MODULUS - 1) % UINT32_MODULUS
  }

  function SelectionSorted<T>(b: seq<T>, gt: (T, T) -> bool): (r: seq<T>)
    ensures |r| == |b|
  {
    SelectFrom(b, 0, Bound(|b|), gt)
  }

  // ---------- any comparator permutes ----------

  lemma SelectPermutes<T>(b: seq<T>, i: nat, gt: (T, T) -> bool)
    ensures Permutation(b, Select(b, i, gt))
  {
  }

  lemma {:induction false} SelectFromPermutes<T>(b: seq<T>, i: nat, bound: nat, gt: (T, T) -> bool)
    ensures Permutation(b, SelectFrom(b, i, bound, gt))
    decreases bound - i
  {
    if i < bound {
      SelectPermutes(b, i, gt);
      SelectFromPermutes(Select(b, i, gt), i + 1, bound, gt);
    }
  }

  // ---------- sortedness ----------

  /** Position m holds a least element of those from i to j, and the first of them. */
  ghost predicate FirstLeast<T>(b: seq<T>, i: nat, m: nat, j: nat, gt: (T, T) -> bool)
    requires i <= m < j <= |b|
  {
    (forall k :: i <= k < j ==> !gt(b[m], b[k])) && (forall k :: i <= k < m ==> gt(b[k], b[m]))
  }

  lemma FirstLeastStep<T(!new)>(b: seq<T>, i: nat, m: nat, j: nat, gt: (T, T) -> bool, domain: iset<T>)
    requires i <= m < j < |b| && StrictWeakOrder(gt, domain) && Over(b, domain) && FirstLeast(b, i, m, j, gt)
    ensures FirstLeast(b, i, if gt(b[m], b[j]) then j else m, j + 1, gt)
  {
    if gt(b[m], b[j]) {
      forall k | i <= k < j ensures gt(b[k], b[j]) {
        assert b[m] in domain && b[j] in domain && b[k] in domain;
        if !gt(b[k], b[j]) {
          Transitive(b[m], b[k], b[j], gt, domain);
        }
      }
    }
  }

  /** The inner loop finds the first of the least elements. */
  lemma {:induction false} MinIndexIsLeast<T(!new)>(b: seq<T>, i: nat, m: nat, j: nat, gt: (T, T) -> bool,
                                                    domain: iset<T>)
    requires i <= m < j <= |b| && StrictWeakOrder(gt, domain) && Over(b, domain) && FirstLeast(b, i, m, j, gt)
    ensures var r := MinIndex(b, m, j, gt); i <= r < |b| && FirstLeast(b, i, r, |b|, gt)
    decreases |b| - j
  {
    if j < |b| {
      FirstLeastStep(b, i, m, j, gt, domain);
      MinIndexIsLeast(b, i, if gt(b[m], b[j]) then j else m, j + 1, gt, domain);
    }
  }

  /** The sorted part is built up from the left: nothing after one of its elements is smaller. */
  ghost predicate SettledBefore<T>(s: seq<T>, k: nat, gt: (T, T) -> bool) {
    forall p, q :: 0 <= p < q < |s| && p < k ==> !gt(s[p], s[q])
  }

  lemma SelectStep<T(!new)>(b: seq<T>, i: nat, gt: (T, T) -> bool, domain: iset<T>)
    requires i < |b| && StrictWeakOrder(gt, domain) && Over(b, domain) && SettledBefore(b, i, gt)
    ensures SettledBefore(Select(b, i, gt), i + 1, gt) && Over(Select(b, i, gt), domain)
  {
    assert b[i] in domain;
    MinIndexIsLeast(b, i, i, i + 1, gt, domain);
  }

  lemma {:induction false} SelectFromSorts<T(!new)>(b: seq<T>, i: nat, gt: (T, T) -> bool, domain: iset<T>)
    requires StrictWeakOrder(gt, domain) && Over(b, domain) && b != [] && i <= |b| - 1 && SettledBefore(b, i, gt)
    ensures Sorted(SelectFrom(b, i, |b| - 1, gt), gt)
    decreases |b| - i
  {
    if i < |b| - 1 {
      SelectStep(b, i, gt, domain);
      SelectFromSorts(Select(b, i, gt), i + 1, gt, domain);
    }
  }

  /** For every buffer a uint32 can count, the empty one included, where the loop bound wraps to 2^32 - 1. */
  lemma SelectionSortIsASort<T(!new)>(b: seq<T>, gt: (T, T) -> bool)
    requires |b| < UINT32_MODULUS
    ensures SortOf(b, SelectionSorted(b, gt), gt)
  {
    SelectFromPermutes(b, 0, Bound(|b|), gt);
    if StrictWeakOrder(gt, Elements(b)) && b != [] {
      assert Bound(|b|) == |b| - 1;
      SelectFromSorts(b, 0, gt, Elements(b));
    }
  }

  // ---------- the byte-level program ----------

  /** The inner loop. */
  method FindMin(a: array<bv8>, i: nat, n: nat, size: nat, gt: (Block, Block) -> bool,
                 ghost b: seq<Block>, ghost rest: seq<bv8>) returns (minIndex: nat)
    requires Holds(a, n, size, b, rest)
    ensures minIndex == MinIndex(b, i, i + 1, gt)
  {
    minIndex := i;
    var j := i + 1;
    ghost var m := MinIndex(b, i, j, gt);
    while j < n
      invariant i <= minIndex < j && (minIndex == i || minIndex < n)
      invariant m == MinIndex(b, minIndex, j, gt)
    {
      var greater := Greater(a, minIndex, j, n, size, gt, b, rest);
      if greater {
        minIndex := j;
      }
      j := j + 1;
    }
  }

  method Sort(a: array<bv8>, numberOfElements: nat, size: nat, gt: (Block, Block) -> bool)
    requires Times(numberOfElements, size) <= a.Length && numberOfElements < UINT32_MODULUS
    requires Times(numberOfElements, size) < UINT32_MODULUS
    modifies a
    ensures Holds(a, numberOfElements, size, SelectionSorted(old(Blocks(a[..], numberOfElements, size)), gt),
                  old(a[Times(numberOfElements, size)..]))
  {
    var n := numberOfElements;
    ghost var b, rest := Blocks(a[..], n, size), a[Times(n, size)..];
    ghost var goal := SelectionSorted(b, gt);
    var bound := (n + UINT32_MODULUS - 1) % UINT32_MODULUS;
    var i := 0;
    while i < bound
      invariant 0 <= i <= bound
      invariant Holds(a, n, size, b, rest)
      invariant goal == SelectFrom(b, i, bound, gt)
    {
      var minIndex := FindMin(a, i, n, size, gt, b, rest);
      if minIndex != i {
        SwapBlocks(a, minIndex, i, n, size, b, rest);
        b := Swap(b, minIndex, i);
      }
      i := i + 1;
    }
  }
}
