/** Bubble sort: shrinking passes over adjacent blocks, with an early exit after a pass without a swap. */
module BubbleSort {
  import opened Common
  import opened Products
  import opened BlockBuffer
  import opened Ordering

  // ---------- the algorithm on a sequence of elements ----------

  /** One iteration of the inner loop. */
  function Bubble<T>(b: seq<T>, j: nat, gt: (T, T) -> bool): (r: seq<T>)
    requires j + 1 < |b|
    ensures |r| == |b|
  {
    if gt(b[j], b[j + 1]) then Swap(b, j, j + 1) else b
  }

  /** The inner loop from position `j`; `limit` is n - i - 1 and is negative for an empty buffer. */
  function Pass<T>(b: seq<T>, j: nat, limit: int, gt: (T, T) -> bool): (r: seq<T>)
    requires limit < |b|
    ensures |r| == |b|
    decreases limit - j
  {
    if j >= limit then b else Pass(Bubble(b, j, gt), j + 1, limit, gt)
  }

  function PassSwaps<T>(b: seq<T>, j: nat, limit: int, gt: (T, T) -> bool): (swaps: nat)
    requires limit < |b|
    decreases limit - j
  {
    if j >= limit then 0
    else (if gt(b[j], b[j + 1]) then 1 else 0) + PassSwaps(Bubble(b, j, gt), j + 1, limit, gt)
  }

  /** The outer loop from pass `i`, until a pass makes no swap. */
  function Passes<T>(b: seq<T>, i: nat, gt: (T, T) -> bool): (r: seq<T>)
    ensures |r| == |b|
    decreases |b| - i
  {
    var c := Pass(b, 0, |b| - i - 1, gt);
    if PassSwaps(b, 0, |b| - i - 1, gt) == 0 then c else Passes(c, i + 1, gt)
  }

  function SwapCount<T>(b: seq<T>, i: nat, gt: (T, T) -> bool): nat
    decreases |b| - i
  {
    var swaps := PassSwaps(b, 0, |b| - i - 1, gt);
    if swaps == 0 then 0 else swaps + SwapCount(Pass(b, 0, |b| - i - 1, gt), i + 1, gt)
  }

  function PassCount<T>(b: seq<T>, i: nat, gt: (T, T) -> bool): nat
    decreases |b| - i
  {
    if PassSwaps(b, 0, |b| - i - 1, gt) == 0 then 1
    else 1 + PassCount(Pass(b, 0, |b| - i - 1, gt), i + 1, gt)
  }

  function BubbleSorted<T>(b: seq<T>, gt: (T, T) -> bool): (r: seq<T>)
    ensures |r| == |b|
  {
    Passes(b, 0, gt)
  }

  // ---------- any comparator permutes, in at most max(n, 1) passes ----------

  lemma BubblePermutes<T>(b: seq<T>, j: nat, gt: (T, T) -> bool)
    requires j + 1 < |b|
    ensures Permutation(b, Bubble(b, j, gt))
  {
  }

  lemma BubbleOver<T(!new)>(b: seq<T>, j: nat, gt: (T, T) -> bool, domain: iset<T>)
    requires j + 1 < |b| && Over(b, domain)
    ensures Over(Bubble(b, j, gt), domain)
  {
  }

  lemma {:induction false} PassPermutes<T>(b: seq<T>, j: nat, limit: int, gt: (T, T) -> bool)
    requires limit < |b|
    ensures Permutation(b, Pass(b, j, limit, gt))
    decreases limit - j
  {
    if j < limit {
      BubblePermutes(b, j, gt);
      PassPermutes(Bubble(b, j, gt), j + 1, limit, gt);
    }
  }

  lemma {:induction false} PassesPermute<T>(b: seq<T>, i: nat, gt: (T, T) -> bool)
    ensures Permutation(b, Passes(b, i, gt))
    decreases |b| - i
  {
    PassPermutes(b, 0, |b| - i - 1, gt);
    if PassSwaps(b, 0, |b| - i - 1, gt) != 0 {
      PassesPermute(Pass(b, 0, |b| - i - 1, gt), i + 1, gt);
    }
  }

  lemma {:induction false} PassCountBound<T>(b: seq<T>, i: nat, gt: (T, T) -> bool)
    ensures PassCount(b, i, gt) <= if i < |b| then |b| - i else 1
    decreases |b| - i
  {
    if PassSwaps(b, 0, |b| - i - 1, gt) != 0 {
      PassCountBound(Pass(b, 0, |b| - i - 1, gt), i + 1, gt);
    }
  }

  // ---------- sortedness despite the shrinking range and the early exit ----------

  /** Within a pass that has reached `j`: the elements past `limit` are final and none before `j` is greater. */
  ghost predicate Rising<T>(b: seq<T>, j: nat, limit: nat, gt: (T, T) -> bool)
    requires j <= limit < |b|
  {
    SettledFrom(b, limit + 1, gt) && forall p :: 0 <= p < j ==> !gt(b[p], b[j])
  }

  lemma BubbleRises<T(!new)>(b: seq<T>, j: nat, limit: nat, gt: (T, T) -> bool, domain: iset<T>)
    requires j < limit < |b| && StrictWeakOrder(gt, domain) && Over(b, domain) && Rising(b, j, limit, gt)
    ensures Rising(Bubble(b, j, gt), j + 1, limit, gt)
  {
    var c := Bubble(b, j, gt);
    forall p | 0 <= p < j + 1 ensures !gt(c[p], c[j + 1]) {
      assert b[j] in domain && b[j + 1] in domain && b[p] in domain;
      if !gt(b[j], b[j + 1]) && p < j {
        Transitive(b[p], b[j], b[j + 1], gt, domain);
      }
    }
  }

  lemma {:induction false} PassSettles<T(!new)>(b: seq<T>, j: nat, limit: nat, gt: (T, T) -> bool, domain: iset<T>)
    requires j <= limit < |b| && StrictWeakOrder(gt, domain) && Over(b, domain) && Rising(b, j, limit, gt)
    ensures SettledFrom(Pass(b, j, limit, gt), limit, gt)
    decreases limit - j
  {
    if j < limit {
      BubbleRises(b, j, limit, gt, domain);
      BubbleOver(b, j, gt, domain);
      PassSettles(Bubble(b, j, gt), j + 1, limit, gt, domain);
    }
  }

  /** A pass without a swap found no adjacent pair out of order and changed nothing. */
  lemma {:induction false} QuietPass<T>(b: seq<T>, j: nat, limit: int, gt: (T, T) -> bool)
    requires limit < |b| && PassSwaps(b, j, limit, gt) == 0
    ensures Pass(b, j, limit, gt) == b
    ensures forall k :: j <= k < limit ==> !gt(b[k], b[k + 1])
    decreases limit - j
  {
    if j < limit {
      QuietPass(b, j + 1, limit, gt);
    }
  }

  lemma {:induction false} AdjacentChain<T(!new)>(b: seq<T>, p: nat, q: nat, gt: (T, T) -> bool, domain: iset<T>)
    requires p < q < |b| && StrictWeakOrder(gt, domain) && Over(b, domain)
    requires forall k :: p <= k < q ==> !gt(b[k], b[k + 1])
    ensures !gt(b[p], b[q])
    decreases q
  {
    assert !gt(b[q - 1], b[q - 1 + 1]);
    if p < q - 1 {
      AdjacentChain(b, p, q - 1, gt, domain);
      Transitive(b[p], b[q - 1], b[q], gt, domain);
    }
  }

  /** Nothing beyond the limit is out of order, and nothing before it either: the pass was quiet. */
  lemma QuietIsSorted<T(!new)>(b: seq<T>, limit: int, gt: (T, T) -> bool, domain: iset<T>)
    requires StrictWeakOrder(gt, domain) && Over(b, domain) && limit < |b| && SettledFrom(b, limit + 1, gt)
    requires PassSwaps(b, 0, limit, gt) == 0
    ensures Sorted(b, gt)
  {
    QuietPass(b, 0, limit, gt);
    forall p, q | 0 <= p < q < |b| ensures !gt(b[p], b[q]) {
      if q <= limit {
        AdjacentChain(b, p, q, gt, domain);
      }
    }
  }

  lemma PassSettlesOne<T(!new)>(b: seq<T>, limit: int, c: seq<T>, gt: (T, T) -> bool, domain: iset<T>)
    requires StrictWeakOrder(gt, domain) && Over(b, domain) && limit < |b| && SettledFrom(b, limit + 1, gt)
    requires c == Pass(b, 0, limit, gt)
    ensures SettledFrom(c, limit, gt) && Over(c, domain)
  {
    PassPermutes(b, 0, limit, gt);
    PermutationOver(b, c, domain);
    if limit >= 0 {
      PassSettles(b, 0, limit, gt, domain);
    }
  }

  lemma {:induction false} PassesSort<T(!new)>(b: seq<T>, i: nat, gt: (T, T) -> bool, domain: iset<T>)
    requires StrictWeakOrder(gt, domain) && Over(b, domain) && SettledFrom(b, |b| - i, gt)
    ensures Sorted(Passes(b, i, gt), gt)
    decreases |b| - i
  {
    var limit := |b| - i - 1;
    var c := Pass(b, 0, limit, gt);
    if PassSwaps(b, 0, limit, gt) == 0 {
      QuietPass(b, 0, limit, gt);
      QuietIsSorted(b, limit, gt, domain);
    } else {
      PassSettlesOne(b, limit, c, gt, domain);
      PassesSort(c, i + 1, gt, domain);
    }
  }

  lemma BubbleSortIsASort<T(!new)>(b: seq<T>, gt: (T, T) -> bool)
    ensures SortOf(b, BubbleSorted(b, gt), gt)
  {
    PassesPermute(b, 0, gt);
    if StrictWeakOrder(gt, Elements(b)) {
      PassesSort(b, 0, gt, Elements(b));
    }
  }

  // ---------- stability ----------

  lemma SwappedPairClass<T(!new)>(y: T, z: T, x: T, gt: (T, T) -> bool, domain: iset<T>)
    requires StrictWeakOrder(gt, domain) && x in domain && y in domain && z in domain && gt(y, z)
    ensures Class([y, z], x, gt) == Class([z, y], x, gt)
  {
    assert Row(y, x, z);
    assert [y, z][1..] == [z] && [z, y][1..] == [y] && [z][1..] == [] && [y][1..] == [];
  }

  lemma ClassInside<T>(pre: seq<T>, m: seq<T>, n: seq<T>, post: seq<T>, x: T, gt: (T, T) -> bool)
    requires Class(m, x, gt) == Class(n, x, gt)
    ensures Class(pre + m + post, x, gt) == Class(pre + n + post, x, gt)
  {
    ClassConcat(pre + m, post, x, gt);
    ClassConcat(pre + n, post, x, gt);
    ClassConcat(pre, m, x, gt);
    ClassConcat(pre, n, x, gt);
  }

  lemma SplitAtPair<T>(b: seq<T>, j: nat)
    requires j + 1 < |b|
    ensures b == b[..j] + [b[j], b[j + 1]] + b[j + 2..]
    ensures Swap(b, j, j + 1) == b[..j] + [b[j + 1], b[j]] + b[j + 2..]
  {
  }

  lemma BubbleKeepsClass<T(!new)>(b: seq<T>, j: nat, x: T, gt: (T, T) -> bool, domain: iset<T>)
    requires j + 1 < |b| && StrictWeakOrder(gt, domain) && Over(b, domain) && x in domain
    ensures Class(Bubble(b, j, gt), x, gt) == Class(b, x, gt)
  {
    if gt(b[j], b[j + 1]) {
      SplitAtPair(b, j);
      SwappedPairClass(b[j], b[j + 1], x, gt, domain);
      ClassInside(b[..j], [b[j], b[j + 1]], [b[j + 1], b[j]], b[j + 2..], x, gt);
    }
  }

  lemma {:induction false} PassKeepsClass<T(!new)>(b: seq<T>, j: nat, limit: int, x: T, gt: (T, T) -> bool,
                                            domain: iset<T>)
    requires limit < |b| && StrictWeakOrder(gt, domain) && Over(b, domain) && x in domain
    ensures Class(Pass(b, j, limit, gt), x, gt) == Class(b, x, gt)
    decreases limit - j
  {
    if j < limit {
      BubbleKeepsClass(b, j, x, gt, domain);
      BubbleOver(b, j, gt, domain);
      PassKeepsClass(Bubble(b, j, gt), j + 1, limit, x, gt, domain);
    }
  }

  lemma {:induction false} PassesKeepClass<T(!new)>(b: seq<T>, i: nat, x: T, gt: (T, T) -> bool, domain: iset<T>)
    requires StrictWeakOrder(gt, domain) && Over(b, domain) && x in domain
    ensures Class(Passes(b, i, gt), x, gt) == Class(b, x, gt)
    decreases |b| - i
  {
    var limit := |b| - i - 1;
    PassKeepsClass(b, 0, limit, x, gt, domain);
    if PassSwaps(b, 0, limit, gt) != 0 {
      PassPermutes(b, 0, limit, gt);
      PermutationOver(b, Pass(b, 0, limit, gt), domain);
      PassesKeepClass(Pass(b, 0, limit, gt), i + 1, x, gt, domain);
    }
  }

  /** Elements that the comparator does not tell apart keep their order. */
  lemma BubbleSortStable<T(!new)>(b: seq<T>, gt: (T, T) -> bool, domain: iset<T>)
    requires StrictWeakOrder(gt, domain) && Over(b, domain)
    ensures Stable(b, BubbleSorted(b, gt), gt, domain)
  {
    forall x | x in domain ensures Class(b, x, gt) == Class(BubbleSorted(b, gt), x, gt) {
      PassesKeepClass(b, 0, x, gt, domain);
    }
  }

  // ---------- one swap for each inversion ----------

  ghost function Below<T>(x: T, s: seq<T>, gt: (T, T) -> bool): nat {
    if s == [] then 0 else (if gt(x, s[0]) then 1 else 0) + Below(x, s[1..], gt)
  }

  /** The number of pairs that stand in the wrong order. */
  ghost function Inversions<T>(s: seq<T>, gt: (T, T) -> bool): nat {
    if s == [] then 0 else Below(s[0], s[1..], gt) + Inversions(s[1..], gt)
  }

  lemma {:induction false} BelowSwap<T>(x: T, s: seq<T>, j: nat, gt: (T, T) -> bool)
    requires j + 1 < |s|
    ensures Below(x, Swap(s, j, j + 1), gt) == Below(x, s, gt)
    decreases j
  {
    var t := Swap(s, j, j + 1);
    if j == 0 {
      assert s[1..][1..] == s[2..] && t[1..][1..] == t[2..] && s[2..] == t[2..];
    } else {
      assert t[1..] == Swap(s[1..], j - 1, j);
      BelowSwap(x, s[1..], j - 1, gt);
    }
  }

  lemma {:induction false} SwapRemovesInversion<T>(s: seq<T>, j: nat, gt: (T, T) -> bool)
    requires j + 1 < |s| && gt(s[j], s[j + 1]) && !gt(s[j + 1], s[j])
    ensures Inversions(s, gt) == Inversions(Swap(s, j, j + 1), gt) + 1
    decreases j
  {
    var t := Swap(s, j, j + 1);
    if j == 0 {
      assert s[1..][1..] == s[2..] && t[1..][1..] == t[2..] && s[2..] == t[2..];
    } else {
      assert t[1..] == Swap(s[1..], j - 1, j);
      BelowSwap(s[0], s[1..], j - 1, gt);
      SwapRemovesInversion(s[1..], j - 1, gt);
    }
  }

  lemma {:induction false} SortedHasNoInversion<T>(s: seq<T>, gt: (T, T) -> bool)
    requires Sorted(s, gt)
    ensures Inversions(s, gt) == 0
  {
    if s != [] {
      SortedHasNoInversion(s[1..], gt);
      NothingBelow(s[0], s[1..], gt);
    }
  }

  lemma {:induction false} NothingBelow<T>(x: T, s: seq<T>, gt: (T, T) -> bool)
    requires forall i :: 0 <= i < |s| ==> !gt(x, s[i])
    ensures Below(x, s, gt) == 0
  {
    if s != [] {
      NothingBelow(x, s[1..], gt);
    }
  }

  lemma {:induction false} PassRemovesInversions<T(!new)>(b: seq<T>, j: nat, limit: int, gt: (T, T) -> bool,
                                                   domain: iset<T>)
    requires limit < |b| && StrictWeakOrder(gt, domain) && Over(b, domain)
    ensures Inversions(b, gt) == Inversions(Pass(b, j, limit, gt), gt) + PassSwaps(b, j, limit, gt)
    decreases limit - j
  {
    if j < limit {
      assert b[j] in domain && b[j + 1] in domain;
      if gt(b[j], b[j + 1]) {
        SwapRemovesInversion(b, j, gt);
      }
      BubbleOver(b, j, gt, domain);
      PassRemovesInversions(Bubble(b, j, gt), j + 1, limit, gt, domain);
    }
  }

  lemma {:induction false} PassesRemoveInversions<T(!new)>(b: seq<T>, i: nat, gt: (T, T) -> bool, domain: iset<T>)
    requires StrictWeakOrder(gt, domain) && Over(b, domain)
    ensures Inversions(b, gt) == Inversions(Passes(b, i, gt), gt) + SwapCount(b, i, gt)
    decreases |b| - i
  {
    var limit := |b| - i - 1;
    PassRemovesInversions(b, 0, limit, gt, domain);
    if PassSwaps(b, 0, limit, gt) != 0 {
      PassPermutes(b, 0, limit, gt);
      PermutationOver(b, Pass(b, 0, limit, gt), domain);
      PassesRemoveInversions(Pass(b, 0, limit, gt), i + 1, gt, domain);
    }
  }

  /** Exactly as many swaps as the input has inversions. */
  lemma BubbleSortCost<T(!new)>(b: seq<T>, gt: (T, T) -> bool, domain: iset<T>)
    requires StrictWeakOrder(gt, domain) && Over(b, domain)
    ensures SwapCount(b, 0, gt) == Inversions(b, gt)
  {
    PassesRemoveInversions(b, 0, gt, domain);
    PassesSort(b, 0, gt, domain);
    SortedHasNoInversion(BubbleSorted(b, gt), gt);
  }

  // ---------- the byte-level program ----------

  /** The inner loop. */
  method OnePass(a: array<bv8>, limit: int, n: nat, size: nat, gt: (Block, Block) -> bool,
                 ghost b: seq<Block>, ghost rest: seq<bv8>) returns (swapped: bool, ghost swaps: nat)
    requires limit < n && Holds(a, n, size, b, rest)
    modifies a
    ensures Holds(a, n, size, Pass(b, 0, limit, gt), rest)
    ensures swaps == PassSwaps(b, 0, limit, gt) && (swapped <==> swaps > 0)
  {
    ghost var goal, goalSwaps, now := Pass(b, 0, limit, gt), PassSwaps(b, 0, limit, gt), b;
    swapped, swaps := false, 0;
    var j := 0;
    while j < limit
      invariant 0 <= j && (j > 0 ==> j <= limit)
      invariant Holds(a, n, size, now, rest)
      invariant goal == Pass(now, j, limit, gt)
      invariant goalSwaps == swaps + PassSwaps(now, j, limit, gt)
      invariant swapped <==> swaps > 0
    {
      var greater := Greater(a, j, j + 1, n, size, gt, now, rest);
      if greater {
        SwapBlocks(a, j, j + 1, n, size, now, rest);
        now := Swap(now, j, j + 1);
        swaps := swaps + 1;
        swapped := true;
      }
      j := j + 1;
    }
  }

  /** The smallest int32_t is excluded, because the outer loop subtracts one from it. */
  method Sort(a: array<bv8>, numberOfElements: int, size: nat, gt: (Block, Block) -> bool)
    returns (ghost swaps: nat, ghost passes: nat)
    requires Times(Count(numberOfElements), size) <= a.Length
    requires -INT32_LIMIT < numberOfElements < INT32_LIMIT && Times(Count(numberOfElements), size) < INT32_LIMIT
    modifies a
    ensures Holds(a, Count(numberOfElements), size,
                  BubbleSorted(old(Blocks(a[..], Count(numberOfElements), size)), gt),
                  old(a[Times(Count(numberOfElements), size)..]))
    ensures swaps == SwapCount(old(Blocks(a[..], Count(numberOfElements), size)), 0, gt)
    ensures passes == PassCount(old(Blocks(a[..], Count(numberOfElements), size)), 0, gt)
    ensures passes <= if numberOfElements > 0 then numberOfElements else 1
  {
    var n := Count(numberOfElements);
    ghost var b, rest := Blocks(a[..], n, size), a[Times(n, size)..];
    ghost var goal, goalSwaps, goalPasses := BubbleSorted(b, gt), SwapCount(b, 0, gt), PassCount(b, 0, gt);
    PassCountBound(b, 0, gt);
    var swapped := true;
    var i := 0;
    swaps, passes := 0, 0;
    while swapped
      invariant 0 <= i
      invariant Holds(a, n, size, b, rest)
      invariant goal == if swapped then Passes(b, i, gt) else b
      invariant goalSwaps == swaps + if swapped then SwapCount(b, i, gt) else 0
      invariant goalPasses == passes + if swapped then PassCount(b, i, gt) else 0
      decreases swapped, n as int - i
    {
      var limit := numberOfElements - i - 1;
      PassLimits(b, limit, |b| - i - 1, numberOfElements, gt);
      ghost var passSwaps;
      swapped, passSwaps := OnePass(a, limit, n, size, gt, b, rest);
      b := Pass(b, 0, limit, gt);
      swaps, passes := swaps + passSwaps, passes + 1;
      i := i + 1;
    }
  }

  /** For a negative count the limit of the pass is another one than for zero elements, but no different. */
  lemma PassLimits<T>(b: seq<T>, limit: int, other: int, n: int, gt: (T, T) -> bool)
    requires |b| == Count(n) && limit - other == n - |b| && limit < n && other < |b|
    ensures Pass(b, 0, limit, gt) == Pass(b, 0, other, gt)
    ensures PassSwaps(b, 0, limit, gt) == PassSwaps(b, 0, other, gt)
  {
  }
}
