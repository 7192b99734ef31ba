/** The three sorts compared with each other. */
module SortAgreement {
  import opened Common
  import opened Products
  import opened BlockBuffer
  import opened Ordering
  import HeapSpec
  import BubbleSort
  import SelectionSort

  /** Under a strict total order on the elements at hand, the three sorts return the same sequence. */
  lemma SortsAgree<T(!new)>(b: seq<T>, gt: (T, T) -> bool)
    requires StrictTotalOrder(gt, Elements(b)) && |b| < UINT32_MODULUS
    ensures HeapSpec.HeapSorted(b, gt) == BubbleSort.BubbleSorted(b, gt) == SelectionSort.SelectionSorted(b, gt)
  {
    var h, u, s := HeapSpec.HeapSorted(b, gt), BubbleSort.BubbleSorted(b, gt), SelectionSort.SelectionSorted(b, gt);
    HeapSpec.HeapSortIsASort(b, gt);
    BubbleSort.BubbleSortIsASort(b, gt);
    SelectionSort.SelectionSortIsASort(b, gt);
    PermutationOver(b, h, Elements(b));
    SortedUnique(h, u, gt, Elements(b));
    SortedUnique(h, s, gt, Elements(b));
  }

  /** Two buffers that show the same blocks followed by the same bytes are the same buffer. */
  lemma ShownBufferUnique(s: seq<bv8>, t: seq<bv8>, n: nat, size: nat, b: seq<Block>, rest: seq<bv8>)
    requires Shows(s, n, size, b, rest) && Shows(t, n, size, b, rest)
    ensures s == t
  {
    var end := Times(n, size);
    BlocksDetermineBytes(s, t, n, size);
    assert s == s[..end] + s[end..] && t == t[..end] + t[end..];
  }

  /** So the bytes the three programs leave behind agree. */
  lemma SortedBuffersAgree(s: seq<bv8>, t: seq<bv8>, u: seq<bv8>, n: nat, size: nat, b: seq<Block>, rest: seq<bv8>,
                           gt: (Block, Block) -> bool)
    requires StrictTotalOrder(gt, Elements(b)) && |b| < UINT32_MODULUS
    requires Shows(s, n, size, HeapSpec.HeapSorted(b, gt), rest)
    requires Shows(t, n, size, BubbleSort.BubbleSorted(b, gt), rest)
    requires Shows(u, n, size, SelectionSort.SelectionSorted(b, gt), rest)
    ensures s == t == u
  {
    SortsAgree(b, gt);
    ShownBufferUnique(s, t, n, size, HeapSpec.HeapSorted(b, gt), rest);
    ShownBufferUnique(t, u, n, size, HeapSpec.HeapSorted(b, gt), rest);
  }

  /** Without a total order they need not agree: bubble sort is stable, selection sort is not. */
  lemma TiesSeparateSorts()
    ensures var b: seq<(int, int)> := [(1, 0), (1, 1), (0, 0)];
            var gt := (x: (int, int), y: (int, int)) => x.0 > y.0;
            && BubbleSort.BubbleSorted(b, gt) == [(0, 0), (1, 0), (1, 1)]
            && SelectionSort.SelectionSorted(b, gt) == [(0, 0), (1, 1), (1, 0)]
  {
    var b: seq<(int, int)> := [(1, 0), (1, 1), (0, 0)];
    var gt := (x: (int, int), y: (int, int)) => x.0 > y.0;
    assert SelectionSort.MinIndex(b, 0, 1, gt) == 2;
    assert SelectionSort.Select(b, 0, gt) == [(0, 0), (1, 1), (1, 0)];
  }
}
