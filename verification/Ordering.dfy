/** What the sorting functions promise about a comparator `gt`, which answers whether its first argument is greater. */
module Ordering {

  ghost predicate Over<T(!new)>(s: seq<T>, domain: iset<T>) {
    forall i :: 0 <= i < |s| ==> s[i] in domain
  }

  /** Names three elements to compare in a row; transitivity is used only where a proof names its three elements. */
  ghost predicate Row<T>(x: T, y: T, z: T) {
    true
  }

  /** On the domain, `gt` is asymmetric and "not greater" is transitive. */
  ghost predicate StrictWeakOrder<T(!new)>(gt: (T, T) -> bool, domain: iset<T>) {
    && (forall x, y :: x in domain && y in domain && gt(x, y) ==> !gt(y, x))
    && (forall x, y, z {:trigger Row(x, y, z)} ::
          x in domain && y in domain && z in domain && !gt(x, y) && !gt(y, z) ==> !gt(x, z))
  }

  lemma Transitive<T(!new)>(x: T, y: T, z: T, gt: (T, T) -> bool, domain: iset<T>)
    requires StrictWeakOrder(gt, domain) && x in domain && y in domain && z in domain
    requires !gt(x, y) && !gt(y, z)
    ensures !gt(x, z)
  {
    assert Row(x, y, z);
  }

  ghost predicate StrictTotalOrder<T(!new)>(gt: (T, T) -> bool, domain: iset<T>) {
    && StrictWeakOrder(gt, domain)
    && (forall x, y :: x in domain && y in domain && x != y ==> gt(x, y) || gt(y, x))
  }

  ghost predicate Sorted<T>(s: seq<T>, gt: (T, T) -> bool) {
    forall i, j :: 0 <= i < j < |s| ==> !gt(s[i], s[j])
  }

  /** From position `k` on the elements are final: nothing before such an element is greater. */
  ghost predicate SettledFrom<T>(s: seq<T>, k: int, gt: (T, T) -> bool) {
    forall p, q :: 0 <= p < q < |s| && k <= q ==> !gt(s[p], s[q])
  }

  ghost function Elements<T(!new)>(s: seq<T>): iset<T> {
    iset x | x in s
  }

  /**
   * The contract of every sort: the result is a rearrangement whatever the comparator answers, and it is sorted as
   * soon as the comparator is a strict weak order on the elements at hand.
   */
  ghost predicate SortOf<T(!new)>(s: seq<T>, t: seq<T>, gt: (T, T) -> bool) {
    Permutation(s, t) && (StrictWeakOrder(gt, Elements(s)) ==> Sorted(t, gt))
  }

  ghost predicate Permutation<T>(s: seq<T>, t: seq<T>) {
    multiset(s) == multiset(t)
  }

  /** The elements of `s` that `gt` does not tell apart from `x`, in their order in `s`. */
  ghost function Class<T>(s: seq<T>, x: T, gt: (T, T) -> bool): (r: seq<T>) {
    if s == [] then []
    else (if !gt(x, s[0]) && !gt(s[0], x) then [s[0]] else []) + Class(s[1..], x, gt)
  }

  /** `t` keeps elements of equal rank in the order they have in `s`. */
  ghost predicate Stable<T(!new)>(s: seq<T>, t: seq<T>, gt: (T, T) -> bool, domain: iset<T>) {
    forall x :: x in domain ==> Class(s, x, gt) == Class(t, x, gt)
  }

  // ---------- permutations ----------

  lemma PermutationOver<T(!new)>(s: seq<T>, t: seq<T>, domain: iset<T>)
    requires Permutation(s, t) && Over(s, domain)
    ensures Over(t, domain) && |t| == |s|
  {
    forall i | 0 <= i < |t| ensures t[i] in domain {
      assert t[i] in multiset(s);
    }
    assert |multiset(s)| == |s| && |multiset(t)| == |t|;
  }

  lemma PermutationTail<T>(s: seq<T>, t: seq<T>)
    requires s != [] && t != [] && s[0] == t[0] && Permutation(s, t)
    ensures Permutation(s[1..], t[1..])
  {
    assert s == [s[0]] + s[1..] && t == [t[0]] + t[1..];
    assert multiset(s[1..]) == multiset(s) - multiset{s[0]};
    assert multiset(t[1..]) == multiset(t) - multiset{t[0]};
  }

  lemma SortedHead<T>(s: seq<T>, x: T, gt: (T, T) -> bool)
    requires Sorted(s, gt) && x in multiset(s) && !gt(x, x)
    ensures s != [] && !gt(s[0], x)
  {
    var i :| 0 <= i < |s| && s[i] == x;
  }

  /** Under a strict total order only one sequence is sorted and holds the given elements. */
  lemma {:induction false} SortedUnique<T(!new)>(s: seq<T>, t: seq<T>, gt: (T, T) -> bool, domain: iset<T>)
    requires StrictTotalOrder(gt, domain) && Over(s, domain)
    requires Permutation(s, t) && Sorted(s, gt) && Sorted(t, gt)
    ensures s == t
    decreases |s|
  {
    PermutationOver(s, t, domain);
    if s != [] {
      assert s[0] in multiset(t) && t[0] in multiset(s);
      SortedHead(t, s[0], gt);
      SortedHead(s, t[0], gt);
      PermutationTail(s, t);
      SortedUnique(s[1..], t[1..], gt, domain);
      assert s == [s[0]] + s[1..] && t == [t[0]] + t[1..];
    }
  }

  // ---------- stability ----------

  lemma {:induction false} ClassConcat<T>(s: seq<T>, t: seq<T>, x: T, gt: (T, T) -> bool)
    ensures Class(s + t, x, gt) == Class(s, x, gt) + Class(t, x, gt)
    decreases |s|
  {
    if s == [] {
      assert s + t == t;
    } else {
      assert (s + t)[1..] == s[1..] + t;
      ClassConcat(s[1..], t, x, gt);
    }
  }

  lemma {:induction false} ClassMembers<T>(s: seq<T>, x: T, gt: (T, T) -> bool)
    ensures forall y :: y in Class(s, x, gt) <==> y in s && !gt(x, y) && !gt(y, x)
    decreases |s|
  {
    if s != [] {
      ClassMembers(s[1..], x, gt);
    }
  }

  lemma SortedStableHead<T(!new)>(s: seq<T>, t: seq<T>, gt: (T, T) -> bool, domain: iset<T>)
    requires StrictWeakOrder(gt, domain) && Over(s, domain) && Over(t, domain)
    requires Sorted(s, gt) && Stable(s, t, gt, domain) && s != []
    ensures t != [] && exists j :: 0 <= j < |t| && s[0] == t[j]
  {
    var x := s[0];
    assert !gt(x, x);
    ClassMembers(s, x, gt);
    ClassMembers(t, x, gt);
    assert x in Class(t, x, gt);
  }

  /** Sorted sequences that agree class by class are equal: the stable sort of a sequence is unique. */
  lemma {:induction false} StableSortUnique<T(!new)>(s: seq<T>, t: seq<T>, gt: (T, T) -> bool, domain: iset<T>)
    requires StrictWeakOrder(gt, domain) && Over(s, domain) && Over(t, domain)
    requires Sorted(s, gt) && Sorted(t, gt) && Stable(s, t, gt, domain)
    ensures s == t
    decreases |s|
  {
    if s == [] {
      if t != [] {
        SortedStableHead(t, s, gt, domain);
      }
    } else {
      SortedStableHead(s, t, gt, domain);
      SortedStableHead(t, s, gt, domain);
      var x := s[0];
      assert !gt(x, x) && !gt(t[0], t[0]) && !gt(x, t[0]) && !gt(t[0], x);
      assert Class(s, x, gt)[0] == x && Class(t, x, gt)[0] == t[0];
      assert s == [x] + s[1..] && t == [x] + t[1..];
      forall y | y in domain ensures Class(s[1..], y, gt) == Class(t[1..], y, gt) {
        var head := if !gt(y, x) && !gt(x, y) then [x] else [];
        assert Class(s, y, gt) == head + Class(s[1..], y, gt);
        assert Class(t, y, gt) == head + Class(t[1..], y, gt);
        assert Class(s[1..], y, gt) == Class(s, y, gt)[|head|..];
      }
      StableSortUnique(s[1..], t[1..], gt, domain);
    }
  }
}
