/** Heap sort on a sequence of elements: sift-down, heap construction, extraction, and why they sort. */
module HeapSpec {
  import opened BlockBuffer
  import opened Ordering

  // ---------- the algorithm ----------

  /** The position `Heapify` picks among `i` and those of its children that lie below `n`. */
  function Largest<T>(b: seq<T>, n: nat, i: nat, gt: (T, T) -> bool): (m: nat)
    requires n <= |b|
    ensures m == i || (m < n && (m == 2 * i + 1 || m == 2 * i + 2))
  {
    var left := if 2 * i + 1 < n && gt(b[2 * i + 1], b[i]) then 2 * i + 1 else i;
    if 2 * i + 2 < n && gt(b[2 * i + 2], b[left]) then 2 * i + 2 else left
  }

  function SiftDown<T>(b: seq<T>, n: nat, i: nat, gt: (T, T) -> bool): (r: seq<T>)
    requires n <= |b|
    ensures |r| == |b|
    decreases n - i
  {
    var m := Largest(b, n, i, gt);
    if m == i then b else SiftDown(Swap(b, i, m), n, m, gt)
  }

  /** The first loop of the sort, from position `k - 1` down to the root. */
  function Build<T>(b: seq<T>, n: nat, k: nat, gt: (T, T) -> bool): (r: seq<T>)
    requires n <= |b|
    ensures |r| == |b|
    decreases k
  {
    if k == 0 then b else Build(SiftDown(b, n, k - 1, gt), n, k - 1, gt)
  }

  /** The second loop, while the heap still has `k` elements. */
  function Extract<T>(b: seq<T>, k: nat, gt: (T, T) -> bool): (r: seq<T>)
    requires k <= |b|
    ensures |r| == |b|
    decreases k
  {
    if k == 0 then b else Extract(SiftDown(Swap(b, 0, k - 1), k - 1, 0, gt), k - 1, gt)
  }

  function HeapSorted<T>(b: seq<T>, gt: (T, T) -> bool): (r: seq<T>)
    ensures |r| == |b|
  {
    Extract(Build(b, |b|, |b| / 2, gt), |b|, gt)
  }

  // ---------- any comparator permutes ----------

  lemma SwapPermutes<T>(b: seq<T>, i: nat, j: nat)
    requires i < |b| && j < |b|
    ensures Permutation(b, Swap(b, i, j))
  {
  }

  lemma {:induction false} SiftDownPermutes<T>(b: seq<T>, n: nat, i: nat, gt: (T, T) -> bool)
    requires n <= |b|
    ensures Permutation(b, SiftDown(b, n, i, gt))
    decreases n - i
  {
    var m := Largest(b, n, i, gt);
    if m != i {
      SwapPermutes(b, i, m);
      SiftDownPermutes(Swap(b, i, m), n, m, gt);
    }
  }

  lemma {:induction false} BuildPermutes<T>(b: seq<T>, n: nat, k: nat, gt: (T, T) -> bool)
    requires n <= |b|
    ensures Permutation(b, Build(b, n, k, gt))
    decreases k
  {
    if k > 0 {
      SiftDownPermutes(b, n, k - 1, gt);
      BuildPermutes(SiftDown(b, n, k - 1, gt), n, k - 1, gt);
    }
  }

  lemma {:induction false} ExtractPermutes<T>(b: seq<T>, k: nat, gt: (T, T) -> bool)
    requires k <= |b|
    ensures Permutation(b, Extract(b, k, gt))
    decreases k
  {
    if k > 0 {
      var c := Swap(b, 0, k - 1);
      SwapPermutes(b, 0, k - 1);
      SiftDownPermutes(c, k - 1, 0, gt);
      ExtractPermutes(SiftDown(c, k - 1, 0, gt), k - 1, gt);
    }
  }

  /** Whatever the comparator answers, even if it is no order at all, the elements are only rearranged. */
  lemma HeapSortPermutes<T>(b: seq<T>, gt: (T, T) -> bool)
    ensures Permutation(b, HeapSorted(b, gt))
  {
    BuildPermutes(b, |b|, |b| / 2, gt);
    ExtractPermutes(Build(b, |b|, |b| / 2, gt), |b|, gt);
  }

  // ---------- the heap property ----------

  /** Neither child of `k` below `n` is greater than `k`. */
  ghost predicate Node<T>(b: seq<T>, n: nat, k: nat, gt: (T, T) -> bool)
    requires n <= |b|
  {
    && (2 * k + 1 < n ==> !gt(b[2 * k + 1], b[k]))
    && (2 * k + 2 < n ==> !gt(b[2 * k + 2], b[k]))
  }

  ghost predicate HeapFrom<T>(b: seq<T>, lo: nat, n: nat, gt: (T, T) -> bool)
    requires n <= |b|
  {
    forall k: nat :: lo <= k < n ==> Node(b, n, k, gt)
  }

  /** A heap except that the element at `i` may be too small; its children still fit under its parent. */
  ghost predicate HeapExcept<T>(b: seq<T>, lo: nat, n: nat, i: nat, gt: (T, T) -> bool)
    requires n <= |b|
  {
    && (forall k: nat :: lo <= k < n && k != i ==> Node(b, n, k, gt))
    && (forall k: nat :: lo <= k < n && (2 * k + 1 == i || 2 * k + 2 == i) ==> Adopts(b, n, k, i, gt))
  }

  ghost predicate Adopts<T>(b: seq<T>, n: nat, k: nat, i: nat, gt: (T, T) -> bool)
    requires n <= |b| && k < n
  {
    && (2 * i + 1 < n ==> !gt(b[2 * i + 1], b[k]))
    && (2 * i + 2 < n ==> !gt(b[2 * i + 2], b[k]))
  }

  lemma LargestIsGreatest<T(!new)>(b: seq<T>, n: nat, i: nat, gt: (T, T) -> bool, domain: iset<T>)
    requires n <= |b| && StrictWeakOrder(gt, domain) && Over(b, domain) && i < |b|
    ensures var m := Largest(b, n, i, gt);
            && (m == i ==> Node(b, n, i, gt))
            && (m != i ==> Node(Swap(b, i, m), n, i, gt))
  {
    var m := Largest(b, n, i, gt);
    var l, r := 2 * i + 1, 2 * i + 2;
    if l < n && r < n {
      assert b[i] in domain && b[l] in domain && b[r] in domain;
      assert Row(b[l], b[i], b[r]) && Row(b[i], b[l], b[r]);
    }
  }

  /** Of an element and its children it picks the first of the greatest, the left child before the right one. */
  lemma LargestIsFirstGreatest<T(!new)>(b: seq<T>, n: nat, i: nat, gt: (T, T) -> bool, domain: iset<T>, c: nat)
    requires n <= |b| && StrictWeakOrder(gt, domain) && Over(b, domain) && i < |b|
    requires c == i || (c < n && (c == 2 * i + 1 || c == 2 * i + 2))
    ensures var m := Largest(b, n, i, gt); !gt(b[c], b[m]) && (c < m ==> gt(b[m], b[c]))
  {
    var l, r := 2 * i + 1, 2 * i + 2;
    assert b[i] in domain && b[c] in domain;
    if r < n {
      assert b[l] in domain && b[r] in domain;
      assert Row(b[l], b[i], b[r]) && Row(b[i], b[l], b[r]) && Row(b[r], b[i], b[l]) && Row(b[r], b[l], b[i]);
    }
  }

  lemma SiftStep<T(!new)>(b: seq<T>, lo: nat, n: nat, i: nat, gt: (T, T) -> bool, domain: iset<T>)
    requires n <= |b| && StrictWeakOrder(gt, domain) && Over(b, domain)
    requires lo <= i < n && HeapExcept(b, lo, n, i, gt) && Largest(b, n, i, gt) != i
    ensures var m := Largest(b, n, i, gt); HeapExcept(Swap(b, i, m), lo, n, m, gt)
  {
    var m := Largest(b, n, i, gt);
    var c := Swap(b, i, m);
    LargestIsGreatest(b, n, i, gt, domain);
    forall k: nat | lo <= k < n && k != m ensures Node(c, n, k, gt) {
      if k != i {
        assert Node(b, n, k, gt);
        if 2 * k + 1 == i || 2 * k + 2 == i {
          assert Adopts(b, n, k, i, gt);
        }
      }
    }
    assert Node(b, n, m, gt);
  }

  lemma {:induction false} SiftDownRestoresHeap<T(!new)>(b: seq<T>, lo: nat, n: nat, i: nat,
                                                         gt: (T, T) -> bool, domain: iset<T>)
    requires n <= |b| && StrictWeakOrder(gt, domain) && Over(b, domain)
    requires lo <= i && HeapExcept(b, lo, n, i, gt)
    ensures HeapFrom(SiftDown(b, n, i, gt), lo, n, gt)
    decreases n - i
  {
    if i < n {
      var m := Largest(b, n, i, gt);
      if m == i {
        LargestIsGreatest(b, n, i, gt, domain);
      } else {
        SiftStep(b, lo, n, i, gt, domain);
        SwapPermutes(b, i, m);
        PermutationOver(b, Swap(b, i, m), domain);
        SiftDownRestoresHeap(Swap(b, i, m), lo, n, m, gt, domain);
      }
    }
  }

  lemma {:induction false} SiftDownFrame<T>(b: seq<T>, n: nat, i: nat, gt: (T, T) -> bool)
    requires n <= |b|
    ensures SiftDown(b, n, i, gt)[n..] == b[n..]
    decreases n - i
  {
    var m := Largest(b, n, i, gt);
    if m != i {
      SiftDownFrame(Swap(b, i, m), n, m, gt);
      assert Swap(b, i, m)[n..] == b[n..];
    }
  }

  /** Sifting only moves elements below `n` among themselves, so a bound on all of them survives. */
  lemma {:induction false} SiftDownBound<T>(b: seq<T>, n: nat, i: nat, gt: (T, T) -> bool, v: T)
    requires n <= |b|
    requires forall p :: 0 <= p < n ==> !gt(b[p], v)
    ensures forall p :: 0 <= p < n ==> !gt(SiftDown(b, n, i, gt)[p], v)
    decreases n - i
  {
    var m := Largest(b, n, i, gt);
    if m != i {
      SiftDownBound(Swap(b, i, m), n, m, gt, v);
    }
  }

  lemma {:induction false} BuildMakesHeap<T(!new)>(b: seq<T>, n: nat, k: nat, gt: (T, T) -> bool, domain: iset<T>)
    requires n <= |b| && StrictWeakOrder(gt, domain) && Over(b, domain) && HeapFrom(b, k, n, gt)
    ensures HeapFrom(Build(b, n, k, gt), 0, n, gt)
    decreases k
  {
    if k > 0 {
      var c := SiftDown(b, n, k - 1, gt);
      assert HeapExcept(b, k - 1, n, k - 1, gt);
      SiftDownRestoresHeap(b, k - 1, n, k - 1, gt, domain);
      assert Over(c, domain) by {
        SiftDownPermutes(b, n, k - 1, gt);
        PermutationOver(b, c, domain);
      }
      BuildMakesHeap(c, n, k - 1, gt, domain);
    }
  }

  lemma {:induction false} RootIsGreatest<T(!new)>(b: seq<T>, n: nat, j: nat, gt: (T, T) -> bool, domain: iset<T>)
    requires n <= |b| && j < n && HeapFrom(b, 0, n, gt)
    requires StrictWeakOrder(gt, domain) && Over(b, domain)
    ensures !gt(b[j], b[0])
    decreases j
  {
    assert b[0] in domain && b[j] in domain;
    if j > 0 {
      var parent := (j - 1) / 2;
      assert j == 2 * parent + 1 || j == 2 * parent + 2;
      assert Node(b, n, parent, gt);
      RootIsGreatest(b, n, parent, gt, domain);
      Transitive(b[j], b[parent], b[0], gt, domain);
    }
  }

  lemma HeapWithoutRoot<T>(b: seq<T>, n: nat, gt: (T, T) -> bool)
    requires n < |b| && HeapFrom(b, 0, n + 1, gt)
    ensures HeapExcept(Swap(b, 0, n), 0, n, 0, gt)
  {
    var s := Swap(b, 0, n);
    forall j: nat | 0 <= j < n && j != 0 ensures Node(s, n, j, gt) {
      assert Node(b, n + 1, j, gt);
    }
  }

  lemma RootBounds<T(!new)>(b: seq<T>, n: nat, gt: (T, T) -> bool, domain: iset<T>)
    requires n < |b| && HeapFrom(b, 0, n + 1, gt)
    requires StrictWeakOrder(gt, domain) && Over(b, domain)
    ensures forall j :: 0 <= j < n ==> !gt(Swap(b, 0, n)[j], b[0])
  {
    forall j | 0 <= j < n ensures !gt(Swap(b, 0, n)[j], b[0]) {
      RootIsGreatest(b, n + 1, if j == 0 then n else j, gt, domain);
    }
  }

  lemma SettledStep<T(!new)>(b: seq<T>, n: nat, gt: (T, T) -> bool, domain: iset<T>)
    requires n < |b| && HeapFrom(b, 0, n + 1, gt) && SettledFrom(b, n + 1, gt)
    requires StrictWeakOrder(gt, domain) && Over(b, domain)
    ensures SettledFrom(SiftDown(Swap(b, 0, n), n, 0, gt), n, gt)
  {
    var s := Swap(b, 0, n);
    var c := SiftDown(s, n, 0, gt);
    assert forall q :: n <= q < |b| ==> c[q] == s[q] by {
      SiftDownFrame(s, n, 0, gt);
      assert forall q :: n <= q < |b| ==> c[q] == c[n..][q - n] && s[q] == s[n..][q - n];
    }
    forall q | n <= q < |c| ensures forall p :: 0 <= p < q ==> !gt(c[p], c[q]) {
      if q == n {
        RootBounds(b, n, gt, domain);
      }
      SiftDownBound(s, n, 0, gt, c[q]);
    }
  }

  lemma {:induction false} ExtractSorts<T(!new)>(b: seq<T>, k: nat, gt: (T, T) -> bool, domain: iset<T>)
    requires k <= |b| && StrictWeakOrder(gt, domain) && Over(b, domain)
    requires HeapFrom(b, 0, k, gt) && SettledFrom(b, k, gt)
    ensures Sorted(Extract(b, k, gt), gt)
    decreases k
  {
    if k > 0 {
      var n := k - 1;
      var s := Swap(b, 0, n);
      var c := SiftDown(s, n, 0, gt);
      assert Over(s, domain) && Over(c, domain) by {
        SwapPermutes(b, 0, n);
        PermutationOver(b, s, domain);
        SiftDownPermutes(s, n, 0, gt);
        PermutationOver(s, c, domain);
      }
      HeapWithoutRoot(b, n, gt);
      SiftDownRestoresHeap(s, 0, n, 0, gt, domain);
      SettledStep(b, n, gt, domain);
      ExtractSorts(c, n, gt, domain);
    }
  }

  /** Under any strict weak order the result is sorted. */
  lemma HeapSortSorts<T(!new)>(b: seq<T>, gt: (T, T) -> bool, domain: iset<T>)
    requires StrictWeakOrder(gt, domain) && Over(b, domain)
    ensures Sorted(HeapSorted(b, gt), gt)
  {
    BuildMakesHeap(b, |b|, |b| / 2, gt, domain);
    BuildPermutes(b, |b|, |b| / 2, gt);
    PermutationOver(b, Build(b, |b|, |b| / 2, gt), domain);
    ExtractSorts(Build(b, |b|, |b| / 2, gt), |b|, gt, domain);
  }

  lemma HeapSortIsASort<T(!new)>(b: seq<T>, gt: (T, T) -> bool)
    ensures SortOf(b, HeapSorted(b, gt), gt)
  {
    HeapSortPermutes(b, gt);
    if StrictWeakOrder(gt, Elements(b)) {
      HeapSortSorts(b, gt, Elements(b));
    }
  }
}
