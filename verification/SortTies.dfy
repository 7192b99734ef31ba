/** On which inputs the three sorts always agree: exactly those without two different elements of equal rank. */
module SortTies {
  import opened Common
  import opened BlockBuffer
  import opened Ordering
  import opened HeapSpec
  import BubbleSort
  import SelectionSort
  import SortAgreement

  ghost predicate Tied<T>(x: T, y: T, gt: (T, T) -> bool) {
    !gt(x, y) && !gt(y, x)
  }

  ghost predicate TieFree<T>(b: seq<T>, gt: (T, T) -> bool) {
    forall i, j :: 0 <= i < j < |b| && b[i] != b[j] ==> !Tied(b[i], b[j], gt)
  }

  ghost predicate Descending<T>(s: seq<T>, gt: (T, T) -> bool) {
    forall i, j :: 0 <= i < j < |s| ==> !gt(s[j], s[i])
  }

  lemma TiedThrough<T(!new)>(x: T, y: T, z: T, gt: (T, T) -> bool, domain: iset<T>)
    requires StrictWeakOrder(gt, domain) && x in domain && y in domain && z in domain
    requires Tied(x, y, gt)
    ensures gt(x, z) <==> gt(y, z)
    ensures gt(z, x) <==> gt(z, y)
  {
    assert Row(x, y, z) && Row(y, x, z) && Row(z, x, y) && Row(z, y, x);
  }

  // ---------- a heap is built from itself and from another arrangement ----------

  lemma SiftIdle<T>(b: seq<T>, n: nat, i: nat, gt: (T, T) -> bool)
    requires n <= |b| && Node(b, n, i, gt)
    ensures SiftDown(b, n, i, gt) == b
  {
  }

  lemma {:induction false} BuildIdle<T>(b: seq<T>, n: nat, k: nat, m: nat, gt: (T, T) -> bool)
    requires m <= k && n <= |b| && forall j :: m <= j < k ==> Node(b, n, j, gt)
    ensures Build(b, n, k, gt) == Build(b, n, m, gt)
    decreases k
  {
    if m < k {
      SiftIdle(b, n, k - 1, gt);
      BuildIdle(b, n, k - 1, m, gt);
    }
  }

  lemma DescendingNode<T>(h: seq<T>, j: nat, gt: (T, T) -> bool)
    requires Descending(h, gt)
    ensures Node(h, |h|, j, gt)
  {
  }

  /** Two tied neighbours with greater elements before them, in a descending sequence. */
  ghost predicate TiedPair<T>(h: seq<T>, k: nat, x: T, gt: (T, T) -> bool) {
    && Descending(h, gt) && 1 <= k && k + 1 < |h|
    && Tied(h[k], x, gt) && Tied(h[k + 1], x, gt)
    && forall j :: 0 <= j < k ==> gt(h[j], x)
  }

  lemma LiftedNode<T>(h: seq<T>, k: nat, j: nat, gt: (T, T) -> bool)
    requires Descending(h, gt) && 1 <= k && k + 1 < |h| && k / 2 < j
    ensures Node(Swap(h, k / 2, k + 1), |h|, j, gt)
  {
    var c := Swap(h, k / 2, k + 1);
    assert 2 * j + 1 > k + 1;
  }

  lemma LiftedSifts<T(!new)>(h: seq<T>, k: nat, x: T, gt: (T, T) -> bool, domain: iset<T>)
    requires TiedPair(h, k, x, gt) && StrictWeakOrder(gt, domain) && Over(h, domain) && x in domain
    ensures SiftDown(Swap(h, k / 2, k + 1), |h|, k / 2, gt) == h
  {
    var par, q := k / 2, k + 1;
    var c := Swap(h, par, q);
    assert gt(h[par], h[q]) by {
      TiedThrough(h[q], x, h[par], gt, domain);
    }
    assert Largest(c, |h|, par, gt) == q by {
      if 2 * par + 1 == q {
        assert 2 * par + 2 < |h| ==> !gt(h[2 * par + 2], h[par]);
      } else {
        assert 2 * par + 1 == k;
        TiedThrough(h[q], x, h[k], gt, domain);
      }
    }
    assert Swap(c, par, q) == h;
    DescendingNode(h, q, gt);
    SiftIdle(h, |h|, q, gt);
  }

  /** The second of the pair exchanged with an element above: building the heap puts it back. */
  lemma LiftedBuilds<T(!new)>(h: seq<T>, k: nat, x: T, gt: (T, T) -> bool, domain: iset<T>)
    requires TiedPair(h, k, x, gt) && StrictWeakOrder(gt, domain) && Over(h, domain) && x in domain
    ensures HeapSorted(Swap(h, k / 2, k + 1), gt) == HeapSorted(h, gt)
  {
    var n, par := |h|, k / 2;
    var c := Swap(h, par, k + 1);
    forall j: nat | par < j ensures Node(c, n, j, gt) {
      LiftedNode(h, k, j, gt);
    }
    forall j: nat ensures Node(h, n, j, gt) {
      DescendingNode(h, j, gt);
    }
    BuildIdle(c, n, n / 2, par + 1, gt);
    LiftedSifts(h, k, x, gt, domain);
    BuildIdle(h, n, par, 0, gt);
    BuildIdle(h, n, n / 2, 0, gt);
  }

  lemma {:induction false} ClassFirst<T>(s: seq<T>, j: nat, x: T, gt: (T, T) -> bool)
    requires j < |s| && Tied(s[j], x, gt) && forall i :: 0 <= i < j ==> !Tied(s[i], x, gt)
    ensures Class(s, x, gt) != [] && Class(s, x, gt)[0] == s[j]
  {
    if j > 0 {
      ClassFirst(s[1..], j - 1, x, gt);
    }
  }

  /** Bubble sort keeps the first of the elements tied with x first. */
  lemma FirstKept<T(!new)>(c: seq<T>, j: nat, x: T, gt: (T, T) -> bool, domain: iset<T>)
    requires StrictWeakOrder(gt, domain) && Over(c, domain) && x in domain
    requires j < |c| && Tied(c[j], x, gt) && forall i :: 0 <= i < j ==> !Tied(c[i], x, gt)
    ensures var kept := Class(BubbleSort.BubbleSorted(c, gt), x, gt); kept != [] && kept[0] == c[j]
  {
    BubbleSort.BubbleSortStable(c, gt, domain);
    ClassFirst(c, j, x, gt);
  }

  ghost function FirstOfClass<T>(s: seq<T>, x: T, gt: (T, T) -> bool): T
    requires Class(s, x, gt) != []
  {
    Class(s, x, gt)[0]
  }

  lemma PairKept<T(!new)>(h: seq<T>, k: nat, x: T, gt: (T, T) -> bool, domain: iset<T>)
    requires TiedPair(h, k, x, gt) && StrictWeakOrder(gt, domain) && Over(h, domain) && x in domain
    ensures Class(BubbleSort.BubbleSorted(h, gt), x, gt) != []
    ensures FirstOfClass(BubbleSort.BubbleSorted(h, gt), x, gt) == h[k]
  {
    FirstKept(h, k, x, gt, domain);
  }

  lemma LiftedKept<T(!new)>(h: seq<T>, k: nat, x: T, c: seq<T>, gt: (T, T) -> bool, domain: iset<T>)
    requires TiedPair(h, k, x, gt) && StrictWeakOrder(gt, domain) && Over(h, domain) && x in domain
    requires c == Swap(h, k / 2, k + 1)
    ensures Permutation(h, c) && Class(BubbleSort.BubbleSorted(c, gt), x, gt) != []
    ensures FirstOfClass(BubbleSort.BubbleSorted(c, gt), x, gt) == h[k + 1]
  {
    SwapPermutes(h, k / 2, k + 1);
    PermutationOver(h, c, domain);
    FirstKept(c, k / 2, x, gt, domain);
  }

  /** The two arrangements differ in the order of the pair, so heap sort is not stable on one of them. */
  lemma PairDisagrees<T(!new)>(h: seq<T>, k: nat, x: T, c: seq<T>, gt: (T, T) -> bool, domain: iset<T>)
    requires TiedPair(h, k, x, gt) && StrictWeakOrder(gt, domain) && Over(h, domain) && x in domain
    requires h[k] != h[k + 1] && c == Swap(h, k / 2, k + 1)
    ensures Permutation(h, c)
    ensures HeapSorted(h, gt) != BubbleSort.BubbleSorted(h, gt)
            || HeapSorted(c, gt) != BubbleSort.BubbleSorted(c, gt)
  {
    LiftedBuilds(h, k, x, gt, domain);
    PairKept(h, k, x, gt, domain);
    LiftedKept(h, k, x, c, gt, domain);
  }

  // ---------- a tie among the greatest elements ----------

  lemma {:induction false} SiftKeepsFront<T>(b: seq<T>, n: nat, i: nat, gt: (T, T) -> bool)
    requires n <= |b| && 0 < i && b != []
    ensures SiftDown(b, n, i, gt)[0] == b[0]
    decreases n - i
  {
    var m := Largest(b, n, i, gt);
    if m != i {
      SiftKeepsFront(Swap(b, i, m), n, m, gt);
    }
  }

  lemma {:induction false} BuildKeepsGreatest<T>(b: seq<T>, n: nat, k: nat, u: T, gt: (T, T) -> bool)
    requires n == |b| > 0 && b[0] == u && forall p :: 0 <= p < n ==> !gt(b[p], u)
    ensures Build(b, n, k, gt)[0] == u
    decreases k
  {
    if k > 1 {
      SiftKeepsFront(b, n, k - 1, gt);
      SiftDownBound(b, n, k - 1, gt, u);
      BuildKeepsGreatest(SiftDown(b, n, k - 1, gt), n, k - 1, u, gt);
    } else if k == 1 {
      SiftIdle(b, n, 0, gt);
    }
  }

  lemma {:induction false} ExtractFrame<T>(b: seq<T>, k: nat, gt: (T, T) -> bool)
    requires k <= |b|
    ensures Extract(b, k, gt)[k..] == b[k..]
    decreases k
  {
    if k > 0 {
      var s := Swap(b, 0, k - 1);
      var t := SiftDown(s, k - 1, 0, gt);
      SiftDownFrame(s, k - 1, 0, gt);
      ExtractFrame(t, k - 1, gt);
      assert Extract(b, k, gt)[k..] == t[k - 1..][1..] == s[k - 1..][1..] == b[k..];
    }
  }

  lemma ExtractPutsRootLast<T>(b: seq<T>, k: nat, gt: (T, T) -> bool)
    requires 0 < k <= |b|
    ensures Extract(b, k, gt)[k - 1] == b[0]
  {
    var s := Swap(b, 0, k - 1);
    var t := SiftDown(s, k - 1, 0, gt);
    SiftDownFrame(s, k - 1, 0, gt);
    assert t[k - 1..][0] == s[k - 1..][0];
    ExtractFrame(t, k - 1, gt);
    assert Extract(t, k - 1, gt)[k - 1..][0] == t[k - 1..][0];
  }

  /** A greatest element in front ends up last in heap sort. */
  lemma GreatestGoesLast<T>(c: seq<T>, u: T, gt: (T, T) -> bool)
    requires c != [] && c[0] == u && forall p :: 0 <= p < |c| ==> !gt(c[p], u)
    ensures HeapSorted(c, gt)[|c| - 1] == u
  {
    BuildKeepsGreatest(c, |c|, |c| / 2, u, gt);
    ExtractPutsRootLast(Build(c, |c|, |c| / 2, gt), |c|, gt);
  }

  lemma {:induction false} ClassEndsWith<T>(c: seq<T>, x: T, gt: (T, T) -> bool)
    requires c != [] && Tied(c[|c| - 1], x, gt)
    ensures Class(c, x, gt) != [] && Class(c, x, gt)[|Class(c, x, gt)| - 1] == c[|c| - 1]
  {
    if |c| > 1 {
      ClassEndsWith(c[1..], x, gt);
    }
  }

  lemma SortedLast<T(!new)>(t: seq<T>, v: T, gt: (T, T) -> bool)
    requires Sorted(t, gt) && v in t && !gt(v, v)
    ensures t != [] && !gt(v, t[|t| - 1])
  {
    var i :| 0 <= i < |t| && t[i] == v;
  }

  lemma LastsEqual<T>(c: seq<T>, t: seq<T>, x: T, gt: (T, T) -> bool)
    requires |c| == |t| > 0 && Class(c, x, gt) == Class(t, x, gt)
    requires Tied(c[|c| - 1], x, gt) && Tied(t[|t| - 1], x, gt)
    ensures t[|c| - 1] == c[|c| - 1]
  {
    ClassEndsWith(c, x, gt);
    ClassEndsWith(t, x, gt);
  }

  lemma SortedLastTied<T(!new)>(c: seq<T>, t: seq<T>, x: T, gt: (T, T) -> bool)
    requires StrictWeakOrder(gt, Elements(c)) && x in Elements(c) && c != []
    requires Permutation(c, t) && Sorted(t, gt)
    requires Tied(c[|c| - 1], x, gt) && forall p :: 0 <= p < |c| ==> !gt(c[p], x)
    ensures |t| == |c| && Tied(t[|t| - 1], x, gt)
  {
    PermutationOver(c, t, Elements(c));
    var v, w := c[|c| - 1], t[|t| - 1];
    assert v in multiset(t) && w in multiset(c);
    assert !gt(v, v) && !gt(w, x);
    SortedLast(t, v, gt);
    TiedThrough(v, x, w, gt, Elements(c));
  }

  /** A greatest element at the end stays there in bubble sort. */
  lemma GreatestStaysLast<T(!new)>(c: seq<T>, t: seq<T>, x: T, gt: (T, T) -> bool)
    requires StrictWeakOrder(gt, Elements(c)) && x in Elements(c) && c != [] && t == BubbleSort.BubbleSorted(c, gt)
    requires Tied(c[|c| - 1], x, gt) && forall p :: 0 <= p < |c| ==> !gt(c[p], x)
    ensures t[|c| - 1] == c[|c| - 1]
  {
    BubbleSort.BubbleSortIsASort(c, gt);
    SortedLastTied(c, t, x, gt);
    assert Class(c, x, gt) == Class(t, x, gt) by {
      BubbleSort.BubbleSortStable(c, gt, Elements(c));
    }
    LastsEqual(c, t, x, gt);
  }

  /** So with two different greatest elements at the two ends, heap sort and bubble sort differ. */
  lemma EndsDisagree<T(!new)>(c: seq<T>, gt: (T, T) -> bool)
    requires StrictWeakOrder(gt, Elements(c)) && |c| >= 2 && c[0] != c[|c| - 1] && Tied(c[|c| - 1], c[0], gt)
    requires forall p :: 0 <= p < |c| ==> !gt(c[p], c[0])
    ensures HeapSorted(c, gt) != BubbleSort.BubbleSorted(c, gt)
  {
    GreatestGoesLast(c, c[0], gt);
    GreatestStaysLast(c, BubbleSort.BubbleSorted(c, gt), c[0], gt);
  }

  // ---------- every tie shows in some arrangement ----------

  lemma ArrangeEnds<T>(b: seq<T>, i: nat, j: nat) returns (c: seq<T>)
    requires i < |b| && j < |b| && b[i] != b[j]
    ensures Permutation(b, c) && |c| == |b| && c[0] == b[i] && c[|c| - 1] == b[j]
  {
    var d := Swap(b, 0, i);
    SwapPermutes(b, 0, i);
    c := ToEnd(d, if j == 0 then i else j);
  }

  lemma ToEnd<T>(d: seq<T>, k: nat) returns (c: seq<T>)
    requires 0 < k < |d|
    ensures Permutation(d, c) && |c| == |d| && c[0] == d[0] && c[|c| - 1] == d[k]
  {
    c := Swap(d, k, |d| - 1);
    SwapPermutes(d, k, |d| - 1);
  }

  function Flipped<T>(gt: (T, T) -> bool): (T, T) -> bool {
    (x: T, y: T) => gt(y, x)
  }

  lemma FlippedTransitive<T(!new)>(x: T, y: T, z: T, gt: (T, T) -> bool, domain: iset<T>)
    requires StrictWeakOrder(gt, domain) && x in domain && y in domain && z in domain
    requires !Flipped(gt)(x, y) && !Flipped(gt)(y, z)
    ensures !Flipped(gt)(x, z)
  {
    Transitive(z, y, x, gt, domain);
  }

  lemma FlippedIsOrder<T(!new)>(gt: (T, T) -> bool, domain: iset<T>)
    requires StrictWeakOrder(gt, domain)
    ensures StrictWeakOrder(Flipped(gt), domain)
  {
    var lt := Flipped(gt);
    forall x, y, z | x in domain && y in domain && z in domain && !lt(x, y) && !lt(y, z) ensures !lt(x, z) {
      FlippedTransitive(x, y, z, gt, domain);
    }
  }

  lemma DescendingArrangement<T(!new)>(b: seq<T>, gt: (T, T) -> bool) returns (d: seq<T>)
    requires StrictWeakOrder(gt, Elements(b))
    ensures Permutation(b, d) && Descending(d, gt)
  {
    FlippedIsOrder(gt, Elements(b));
    d := BubbleSort.BubbleSorted(b, Flipped(gt));
    BubbleSort.BubbleSortIsASort(b, Flipped(gt));
  }

  lemma {:induction false} FirstTied<T>(d: seq<T>, x: T, r: nat, gt: (T, T) -> bool) returns (k: nat)
    requires r < |d| && Tied(d[r], x, gt)
    ensures k <= r && Tied(d[k], x, gt) && forall i :: 0 <= i < k ==> !Tied(d[i], x, gt)
    decreases r
  {
    if i: nat :| i < r && Tied(d[i], x, gt) {
      k := FirstTied(d, x, i, gt);
    } else {
      k := r;
    }
  }

  lemma GreaterBefore<T(!new)>(d: seq<T>, k: nat, x: T, gt: (T, T) -> bool, domain: iset<T>)
    requires StrictWeakOrder(gt, domain) && Over(d, domain) && x in domain
    requires Descending(d, gt) && k < |d| && Tied(d[k], x, gt) && forall i :: 0 <= i < k ==> !Tied(d[i], x, gt)
    ensures forall i :: 0 <= i < k ==> gt(d[i], x)
    ensures forall i :: k <= i < |d| ==> !gt(d[i], x)
  {
    forall i | 0 <= i < |d| && i != k ensures if i < k then gt(d[i], x) else !gt(d[i], x) {
      TiedThrough(d[k], x, d[i], gt, domain);
    }
  }

  lemma SwapTiedDescends<T(!new)>(d: seq<T>, p: nat, q: nat, gt: (T, T) -> bool, domain: iset<T>)
    requires StrictWeakOrder(gt, domain) && Over(d, domain) && Descending(d, gt)
    requires p <= q < |d| && Tied(d[p], d[q], gt)
    ensures Descending(Swap(d, p, q), gt)
  {
    var h := Swap(d, p, q);
    forall i, j | 0 <= i < j < |d| ensures !gt(h[j], h[i]) {
      assert Tied(h[i], d[i], gt) && Tied(h[j], d[j], gt);
      TiedThrough(h[i], d[i], h[j], gt, domain);
      TiedThrough(h[j], d[j], d[i], gt, domain);
    }
  }

  lemma SameElements<T(!new)>(b: seq<T>, c: seq<T>)
    requires Permutation(b, c)
    ensures Elements(b) == Elements(c)
  {
    forall x ensures x in b <==> x in c {
      assert x in b <==> x in multiset(b);
      assert x in c <==> x in multiset(c);
    }
  }

  lemma IndexIn<T>(b: seq<T>, d: seq<T>, x: T) returns (r: nat)
    requires Permutation(b, d) && x in b
    ensures r < |d| && d[r] == x
  {
    assert x in multiset(d);
    r :| r < |d| && d[r] == x;
  }

  lemma TiedNeighbour<T(!new)>(d: seq<T>, k: nat, r: nat, x: T, gt: (T, T) -> bool, domain: iset<T>) returns (h: seq<T>)
    requires StrictWeakOrder(gt, domain) && Over(d, domain) && x in domain && Descending(d, gt)
    requires 1 <= k < r < |d| && Tied(d[k], x, gt) && Tied(d[r], x, gt)
    requires forall i :: 0 <= i < k ==> gt(d[i], x)
    requires forall i :: k <= i < |d| ==> !gt(d[i], x)
    ensures Permutation(d, h) && TiedPair(h, k, x, gt) && h[k] == d[k] && h[k + 1] == d[r]
  {
    TiedThrough(d[r], x, d[k + 1], gt, domain);
    TiedThrough(x, d[r], d[k + 1], gt, domain);
    h := Swap(d, k + 1, r);
    SwapPermutes(d, k + 1, r);
    SwapTiedDescends(d, k + 1, r, gt, domain);
  }

  lemma FindTiedPair<T(!new)>(b: seq<T>, i: nat, j: nat, g: T, gt: (T, T) -> bool) returns (h: seq<T>, k: nat)
    requires StrictWeakOrder(gt, Elements(b)) && i < |b| && j < |b| && b[i] != b[j] && Tied(b[j], b[i], gt)
    requires g in b && gt(g, b[i])
    ensures Permutation(b, h) && TiedPair(h, k, b[i], gt) && h[k] != h[k + 1]
  {
    var x, domain := b[i], Elements(b);
    var d := DescendingArrangement(b, gt);
    PermutationOver(b, d, domain);
    assert !gt(x, x);
    var first := IndexIn(b, d, x);
    k := FirstTied(d, x, first, gt);
    GreaterBefore(d, k, x, gt, domain);
    var p := IndexIn(b, d, g);
    assert p < k;
    var v := if d[k] != x then x else b[j];
    var r := IndexIn(b, d, v);
    h := TiedNeighbour(d, k, r, x, gt, domain);
  }

  /** Two different elements of equal rank: heap sort and bubble sort differ on some arrangement. */
  lemma TieDisagrees<T(!new)>(b: seq<T>, i: nat, j: nat, gt: (T, T) -> bool) returns (c: seq<T>)
    requires StrictWeakOrder(gt, Elements(b)) && i < |b| && j < |b| && b[i] != b[j] && Tied(b[j], b[i], gt)
    ensures Permutation(b, c) && HeapSorted(c, gt) != BubbleSort.BubbleSorted(c, gt)
  {
    if g :| g in b && gt(g, b[i]) {
      var h, k := FindTiedPair(b, i, j, g, gt);
      SameElements(b, h);
      PairDisagrees(h, k, b[i], Swap(h, k / 2, k + 1), gt, Elements(b));
      c := if HeapSorted(h, gt) != BubbleSort.BubbleSorted(h, gt) then h else Swap(h, k / 2, k + 1);
    } else {
      c := ArrangeEnds(b, i, j);
      SameElements(b, c);
      forall p | 0 <= p < |c| ensures !gt(c[p], c[0]) {
        assert c[p] in Elements(c);
      }
      EndsDisagree(c, gt);
    }
  }

  ghost predicate SortsAgreeOn<T>(c: seq<T>, gt: (T, T) -> bool) {
    HeapSorted(c, gt) == BubbleSort.BubbleSorted(c, gt) == SelectionSort.SelectionSorted(c, gt)
  }

  lemma TieFreeIsTotal<T(!new)>(b: seq<T>, gt: (T, T) -> bool)
    requires StrictWeakOrder(gt, Elements(b)) && TieFree(b, gt)
    ensures StrictTotalOrder(gt, Elements(b))
  {
    forall x, y | x in Elements(b) && y in Elements(b) && x != y ensures gt(x, y) || gt(y, x) {
      var i, j :| 0 <= i < |b| && 0 <= j < |b| && b[i] == x && b[j] == y;
      assert if i < j then !Tied(b[i], b[j], gt) else !Tied(b[j], b[i], gt);
    }
  }

  /** The three sorts agree on every arrangement of some elements exactly when no two different ones tie. */
  lemma SortsAgreeIffTieFree<T(!new)>(b: seq<T>, gt: (T, T) -> bool)
    requires StrictWeakOrder(gt, Elements(b)) && |b| < UINT32_MODULUS
    ensures (forall c :: Permutation(b, c) ==> SortsAgreeOn(c, gt)) <==> TieFree(b, gt)
  {
    if TieFree(b, gt) {
      forall c | Permutation(b, c) ensures SortsAgreeOn(c, gt) {
        PermutationOver(b, c, Elements(b));
        SameElements(b, c);
        TieFreeIsTotal(b, gt);
        SortAgreement.SortsAgree(c, gt);
      }
    } else {
      var i, j :| 0 <= i < j < |b| && b[i] != b[j] && Tied(b[i], b[j], gt);
      var c := TieDisagrees(b, i, j, gt);
      assert !SortsAgreeOn(c, gt);
    }
  }
}
