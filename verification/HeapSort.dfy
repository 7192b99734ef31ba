/** Heap sort on a flat byte buffer of blocks. */
module HeapSort {
  import opened Common
  import opened Products
  import opened BlockBuffer
  import opened HeapSpec
  import opened HeapCost
  import opened HeapReach

  /**
   * The comparator on two positions of the buffer. Heapify calls it before it tests whether the position lies inside
   * the heap; what the comparator answers for a position at or past `n` is left open.
   */
  method Compare(a: array<bv8>, first: nat, second: nat, n: nat, total: nat, size: nat, gt: (Block, Block) -> bool,
                 ghost b: seq<Block>, ghost rest: seq<bv8>) returns (r: bool)
    requires n <= total && Holds(a, total, size, b, rest)
    ensures first < n && second < n ==> r == gt(b[first], b[second])
  {
    r := *;
    if first < n && second < n {
      r := Greater(a, first, second, total, size, gt, b, rest);
    }
  }

  /** The two comparisons of one round and the tests behind them. */
  method PickLargest(a: array<bv8>, n: nat, index: nat, total: nat, size: nat, gt: (Block, Block) -> bool,
                     ghost b: seq<Block>, ghost rest: seq<bv8>) returns (largest: nat)
    requires n <= total && index < total && Holds(a, total, size, b, rest)
    ensures largest == Largest(b, n, index, gt)
  {
    largest := index;
    var left, right := 2 * index + 1, 2 * index + 2;
    var compareRetValue := Compare(a, left, largest, n, total, size, gt, b, rest);
    if left < n && compareRetValue {
      largest := left;
    }
    compareRetValue := Compare(a, right, largest, n, total, size, gt, b, rest);
    if right < n && compareRetValue {
      largest := right;
    }
  }

  method Heapify(a: array<bv8>, n: nat, i: nat, total: nat, size: nat, gt: (Block, Block) -> bool,
                 ghost b: seq<Block>, ghost rest: seq<bv8>) returns (ghost calls: nat, ghost beyond: bool)
    requires n <= total && i < total && Holds(a, total, size, b, rest)
    modifies a
    ensures Holds(a, total, size, SiftDown(b, n, i, gt), rest)
    ensures calls == SiftCalls(b, n, i, gt)
    ensures beyond == SiftBeyond(b, n, i, total, gt)
  {
    var continueIterating := true;
    var index := i;
    calls, beyond := 0, false;
    ghost var c, goal, cost := b, SiftDown(b, n, i, gt), SiftCalls(b, n, i, gt);
    ghost var reaches := SiftBeyond(b, n, i, total, gt);
    while continueIterating
      invariant index < total
      invariant Holds(a, total, size, c, rest)
      invariant goal == if continueIterating then SiftDown(c, n, index, gt) else c
      invariant cost == calls + if continueIterating then SiftCalls(c, n, index, gt) else 0
      invariant reaches == (beyond || (continueIterating && SiftBeyond(c, n, index, total, gt)))
      decreases continueIterating, n - index
    {
      var largest := PickLargest(a, n, index, total, size, gt, c, rest);
      calls := calls + 2;
      beyond := beyond || total <= 2 * index + 2;
      if largest != index {
        SwapBlocks(a, index, largest, total, size, c, rest);
        c := Swap(c, index, largest);
        index := largest;
      } else {
        continueIterating := false;
      }
    }
  }

  /** n / 2 as C computes it, rounding toward zero. */
  function Half(n: int): (h: int)
    ensures 0 <= n ==> h == n / 2
    ensures n < 0 ==> h <= 0
  {
    if n < 0 then -((-n) / 2) else n / 2
  }

  /** The first loop of the sort. */
  method BuildHeap(a: array<bv8>, numberOfElements: int, size: nat, gt: (Block, Block) -> bool,
                   ghost n: nat, ghost b: seq<Block>, ghost rest: seq<bv8>)
    returns (ghost calls: nat, ghost beyond: bool)
    requires -INT32_LIMIT < numberOfElements < INT32_LIMIT
    requires n == Count(numberOfElements) && Holds(a, n, size, b, rest)
    modifies a
    ensures Holds(a, n, size, Build(b, n, n / 2, gt), rest)
    ensures calls == BuildCalls(b, n, n / 2, gt)
    ensures beyond == BuildBeyond(b, n, n / 2, gt)
  {
    ghost var built, buildCost, now := Build(b, n, n / 2, gt), BuildCalls(b, n, n / 2, gt), b;
    ghost var reaches := BuildBeyond(b, n, n / 2, gt);
    var i := Half(numberOfElements) - 1;
    ghost var k := n / 2;
    calls, beyond := 0, false;
    while i >= 0
      invariant k == (if i >= 0 then i + 1 else 0) <= n
      invariant Holds(a, n, size, now, rest)
      invariant built == Build(now, n, k, gt)
      invariant buildCost == calls + BuildCalls(now, n, k, gt)
      invariant reaches == (beyond || BuildBeyond(now, n, k, gt))
    {
      ghost var c, d := Heapify(a, numberOfElements, i, numberOfElements, size, gt, now, rest);
      now := SiftDown(now, n, i, gt);
      calls, beyond := calls + c, beyond || d;
      i, k := i - 1, i;
    }
  }

  /** The second loop. */
  method ExtractAll(a: array<bv8>, numberOfElements: int, size: nat, gt: (Block, Block) -> bool,
                    ghost n: nat, ghost b: seq<Block>, ghost rest: seq<bv8>)
    returns (ghost calls: nat, ghost beyond: bool)
    requires -INT32_LIMIT < numberOfElements < INT32_LIMIT
    requires n == Count(numberOfElements) && Holds(a, n, size, b, rest)
    modifies a
    ensures Holds(a, n, size, Extract(b, n, gt), rest)
    ensures calls == ExtractCalls(b, n, gt)
    ensures beyond == ExtractBeyond(b, n, n, gt)
  {
    ghost var goal, goalCost, now := Extract(b, n, gt), ExtractCalls(b, n, gt), b;
    ghost var reaches := ExtractBeyond(b, n, n, gt);
    var i := numberOfElements - 1;
    ghost var k := n;
    calls, beyond := 0, false;
    while i >= 0
      invariant k == (if i >= 0 then i + 1 else 0) <= n
      invariant Holds(a, n, size, now, rest)
      invariant goal == Extract(now, k, gt)
      invariant goalCost == calls + ExtractCalls(now, k, gt)
      invariant reaches == (beyond || ExtractBeyond(now, k, n, gt))
    {
      SwapBlocks(a, 0, i, numberOfElements, size, now, rest);
      now := Swap(now, 0, i);
      ghost var c, d := Heapify(a, i, 0, numberOfElements, size, gt, now, rest);
      now := SiftDown(now, i, 0, gt);
      calls, beyond := calls + c, beyond || d;
      i, k := i - 1, i;
    }
  }

  /**
   * Heapify computes the positions of both children of a leaf, up to the one at 2n, so those have to fit an int32_t
   * too. The smallest int32_t is excluded, because the second loop subtracts one from it.
   */
  method Sort(a: array<bv8>, numberOfElements: int, size: nat, gt: (Block, Block) -> bool)
    returns (ghost calls: nat, ghost beyond: bool)
    requires Times(Count(numberOfElements), size) <= a.Length
    requires -INT32_LIMIT < numberOfElements && 2 * numberOfElements < INT32_LIMIT
    requires Times(2 * Count(numberOfElements), size) < INT32_LIMIT
    modifies a
    ensures Holds(a, Count(numberOfElements), size,
                  HeapSorted(old(Blocks(a[..], Count(numberOfElements), size)), gt),
                  old(a[Times(Count(numberOfElements), size)..]))
    ensures calls == HeapSortCalls(old(Blocks(a[..], Count(numberOfElements), size)), gt)
    ensures beyond == HeapSortBeyond(old(Blocks(a[..], Count(numberOfElements), size)), gt)
  {
    ghost var n := Count(numberOfElements);
    ghost var b, rest := Blocks(a[..], n, size), a[Times(n, size)..];
    ghost var c, d := BuildHeap(a, numberOfElements, size, gt, n, b, rest);
    calls, beyond := ExtractAll(a, numberOfElements, size, gt, n, Build(b, n, n / 2, gt), rest);
    calls, beyond := c + calls, d || beyond;
  }
}
