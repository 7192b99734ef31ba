/** How many passes bubble sort makes: one more than the most greater elements that any element has before it. */
module BubblePasses {
  import opened BlockBuffer
  import opened Ordering
  import opened BubbleSort

  /** How many elements of s are greater than x. */
  ghost function Above<T>(s: seq<T>, x: T, gt: (T, T) -> bool): nat {
    if s == [] then 0 else Above(s[..|s| - 1], x, gt) + if gt(s[|s| - 1], x) then 1 else 0
  }

  /** How many greater elements stand before position k. */
  ghost function Before<T>(s: seq<T>, k: nat, gt: (T, T) -> bool): nat
    requires k < |s|
  {
    Above(s[..k], s[k], gt)
  }

  /** m is the largest of these numbers, or zero for no elements. */
  ghost predicate IsMost<T>(s: seq<T>, m: nat, gt: (T, T) -> bool) {
    && (forall k :: 0 <= k < |s| ==> Before(s, k, gt) <= m)
    && (m == 0 || exists k :: 0 <= k < |s| && Before(s, k, gt) == m)
  }

  function Less(n: nat): nat {
    if n == 0 then 0 else n - 1
  }

  lemma {:induction false} AboveZero<T>(s: seq<T>, x: T, gt: (T, T) -> bool)
    ensures Above(s, x, gt) == 0 <==> forall p :: 0 <= p < |s| ==> !gt(s[p], x)
  {
    if s != [] {
      AboveZero(s[..|s| - 1], x, gt);
    }
  }

  lemma {:induction false} AboveSwap<T>(s: seq<T>, j: nat, x: T, gt: (T, T) -> bool)
    requires j + 1 < |s|
    ensures Above(Swap(s, j, j + 1), x, gt) == Above(s, x, gt)
    decreases |s|
  {
    var t, n := Swap(s, j, j + 1), |s|;
    if j + 2 < n {
      assert t[..n - 1] == Swap(s[..n - 1], j, j + 1);
      AboveSwap(s[..n - 1], j, x, gt);
    } else {
      assert t[..n - 1][..n - 2] == s[..n - 2] == s[..n - 1][..n - 2];
    }
  }

  /** One comparison: the element that is passed has one greater element less before it, unless it had none. */
  lemma BubbleBefore<T(!new)>(b: seq<T>, j: nat, limit: nat, c: seq<T>, gt: (T, T) -> bool, domain: iset<T>)
    requires j < limit < |b| && StrictWeakOrder(gt, domain) && Over(b, domain) && Rising(b, j, limit, gt)
    requires c == Bubble(b, j, gt)
    ensures Before(c, j, gt) == Less(Before(b, j + 1, gt))
  {
    assert b[..j + 1] == b[..j] + [b[j]];
    assert b[..j + 1][..j] == b[..j] == c[..j];
    if !gt(b[j], b[j + 1]) {
      var front := b[..j + 1];
      forall p | 0 <= p < |front| ensures !gt(front[p], b[j + 1]) {
        assert front[p] == b[p] && b[p] in domain && b[j] in domain && b[j + 1] in domain;
        if p < j {
          Transitive(b[p], b[j], b[j + 1], gt, domain);
        }
      }
      AboveZero(front, b[j + 1], gt);
      AboveZero(b[..j], b[j], gt);
    }
  }

  lemma BubbleKeepsBefore<T>(b: seq<T>, j: nat, c: seq<T>, k: nat, gt: (T, T) -> bool)
    requires j + 1 < k < |b| && c == Bubble(b, j, gt)
    ensures Before(c, k, gt) == Before(b, k, gt)
  {
    if gt(b[j], b[j + 1]) {
      assert c[..k] == Swap(b[..k], j, j + 1);
      AboveSwap(b[..k], j, b[k], gt);
    }
  }

  lemma {:induction false} PassFrame<T>(b: seq<T>, j: nat, limit: int, gt: (T, T) -> bool)
    requires limit < |b| && j <= |b|
    ensures Pass(b, j, limit, gt)[..j] == b[..j]
    decreases limit - j
  {
    if j < limit {
      var c := Bubble(b, j, gt);
      PassFrame(c, j + 1, limit, gt);
      assert Pass(b, j, limit, gt)[..j] == Pass(c, j + 1, limit, gt)[..j + 1][..j] == c[..j + 1][..j];
    }
  }

  lemma SamePrefix<T>(s: seq<T>, t: seq<T>, k: nat, gt: (T, T) -> bool)
    requires k < |s| && k < |t| && s[..k + 1] == t[..k + 1]
    ensures Before(s, k, gt) == Before(t, k, gt)
  {
    assert s[..k + 1][k] == s[k] && t[..k + 1][k] == t[k];
    assert s[..k] == s[..k + 1][..k] && t[..k] == t[..k + 1][..k];
  }

  /** A pass moves all these numbers one place to the left and takes one off each that is not zero. */
  lemma {:induction false} PassBefore<T(!new)>(b: seq<T>, j: nat, limit: nat, k: nat, gt: (T, T) -> bool,
                                               domain: iset<T>)
    requires j <= k < limit < |b| && StrictWeakOrder(gt, domain) && Over(b, domain) && Rising(b, j, limit, gt)
    ensures Before(Pass(b, j, limit, gt), k, gt) == Less(Before(b, k + 1, gt))
    decreases limit - j
  {
    var c, p := Bubble(b, j, gt), Pass(b, j, limit, gt);
    BubbleRises(b, j, limit, gt, domain);
    BubbleOver(b, j, gt, domain);
    if k == j {
      BubbleBefore(b, j, limit, c, gt, domain);
      PassFrame(c, j + 1, limit, gt);
      SamePrefix(p, c, j, gt);
    } else {
      PassBefore(c, j + 1, limit, k, gt, domain);
      BubbleKeepsBefore(b, j, c, k + 1, gt);
    }
  }

  lemma SettledBefore<T>(s: seq<T>, limit: int, k: nat, gt: (T, T) -> bool)
    requires SettledFrom(s, limit, gt) && limit <= k < |s|
    ensures Before(s, k, gt) == 0
  {
    AboveZero(s[..k], s[k], gt);
  }

  lemma FirstBefore<T>(s: seq<T>, gt: (T, T) -> bool)
    requires s != []
    ensures Before(s, 0, gt) == 0
  {
  }

  lemma SortedIffMostZero<T>(s: seq<T>, gt: (T, T) -> bool)
    ensures Sorted(s, gt) <==> IsMost(s, 0, gt)
  {
    forall k | 0 <= k < |s| ensures Before(s, k, gt) == 0 <==> forall p :: 0 <= p < k ==> !gt(s[p], s[k]) {
      AboveZero(s[..k], s[k], gt);
      assert forall p :: 0 <= p < k ==> s[..k][p] == s[p];
    }
  }

  lemma {:induction false} QuietWhenSorted<T>(b: seq<T>, j: nat, limit: int, gt: (T, T) -> bool)
    requires limit < |b| && Sorted(b, gt)
    ensures PassSwaps(b, j, limit, gt) == 0
    decreases limit - j
  {
    if j < limit {
      QuietWhenSorted(b, j + 1, limit, gt);
    }
  }

  /** So a pass takes one off the largest of them. */
  lemma PassMost<T(!new)>(b: seq<T>, limit: int, c: seq<T>, m: nat, gt: (T, T) -> bool, domain: iset<T>)
    requires StrictWeakOrder(gt, domain) && Over(b, domain) && limit < |b| && SettledFrom(b, limit + 1, gt)
    requires c == Pass(b, 0, limit, gt) && IsMost(b, m, gt) && m > 0
    ensures IsMost(c, m - 1, gt)
  {
    var w :| 0 <= w < |b| && Before(b, w, gt) == m;
    FirstBefore(b, gt);
    if w > limit {
      SettledBefore(b, limit + 1, w, gt);
    }
    PassSettlesOne(b, limit, c, gt, domain);
    PassBefore(b, 0, limit, w - 1, gt, domain);
    assert Before(c, w - 1, gt) == m - 1;
    forall k | 0 <= k < |c| ensures Before(c, k, gt) <= m - 1 {
      if k < limit {
        PassBefore(b, 0, limit, k, gt, domain);
      } else {
        SettledBefore(c, limit, k, gt);
      }
    }
  }

  lemma SwapsWhenUnsorted<T(!new)>(b: seq<T>, limit: int, m: nat, gt: (T, T) -> bool, domain: iset<T>)
    requires StrictWeakOrder(gt, domain) && Over(b, domain) && limit < |b| && SettledFrom(b, limit + 1, gt)
    requires IsMost(b, m, gt) && m > 0
    ensures PassSwaps(b, 0, limit, gt) > 0
  {
    SortedIffMostZero(b, gt);
    if PassSwaps(b, 0, limit, gt) == 0 {
      QuietIsSorted(b, limit, gt, domain);
    }
  }

  lemma {:induction false} PassesExact<T(!new)>(b: seq<T>, i: nat, m: nat, gt: (T, T) -> bool, domain: iset<T>)
    requires StrictWeakOrder(gt, domain) && Over(b, domain) && SettledFrom(b, |b| - i, gt) && IsMost(b, m, gt)
    ensures PassCount(b, i, gt) == 1 + m
    decreases m
  {
    var limit := |b| - i - 1;
    var c := Pass(b, 0, limit, gt);
    if m == 0 {
      SortedIffMostZero(b, gt);
      QuietWhenSorted(b, 0, limit, gt);
    } else {
      SwapsWhenUnsorted(b, limit, m, gt, domain);
      PassSettlesOne(b, limit, c, gt, domain);
      PassMost(b, limit, c, m, gt, domain);
      PassesExact(c, i + 1, m - 1, gt, domain);
    }
  }

  lemma {:induction false} MostUpTo<T>(s: seq<T>, n: nat, gt: (T, T) -> bool) returns (m: nat)
    requires n <= |s|
    ensures forall k :: 0 <= k < n ==> Before(s, k, gt) <= m
    ensures m == 0 || exists k :: 0 <= k < n && Before(s, k, gt) == m
  {
    if n == 0 {
      m := 0;
    } else {
      m := MostUpTo(s, n - 1, gt);
      if m < Before(s, n - 1, gt) {
        m := Before(s, n - 1, gt);
      }
    }
  }

  /** Under a strict weak order the number of passes is one more than the most greater elements before any element. */
  lemma PassCountExact<T(!new)>(b: seq<T>, gt: (T, T) -> bool)
    requires StrictWeakOrder(gt, Elements(b))
    ensures PassCount(b, 0, gt) > 0 && IsMost(b, PassCount(b, 0, gt) - 1, gt)
  {
    var m := MostUpTo(b, |b|, gt);
    PassesExact(b, 0, m, gt, Elements(b));
  }
}
