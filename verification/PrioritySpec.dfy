/** The bounded priority queue as a list in insertion order, and what whole runs of it guarantee. */
module PrioritySpec {
  import opened BlockBuffer
  import opened Ordering

  datatype Item = Item(priority: nat, element: Block)

  function RemoveAt<T>(s: seq<T>, k: nat): (r: seq<T>)
    requires k < |s|
    ensures |r| == |s| - 1
  {
    s[..k] + s[k + 1..]
  }

  ghost predicate IsFirstLowest(items: seq<Item>, n: nat, r: nat)
    requires n <= |items|
  {
    && r < n
    && (forall j :: 0 <= j < n ==> items[r].priority <= items[j].priority)
    && (forall j :: 0 <= j < r ==> items[r].priority < items[j].priority)
  }

  ghost predicate IsFirstHighest(items: seq<Item>, n: nat, r: nat)
    requires n <= |items|
  {
    && r < n
    && (forall j :: 0 <= j < n ==> items[j].priority <= items[r].priority)
    && (forall j :: 0 <= j < r ==> items[j].priority < items[r].priority)
  }

  /** The oldest of the items with the lowest priority. */
  function Lowest(items: seq<Item>): (r: nat)
    requires items != []
    ensures IsFirstLowest(items, |items|, r)
  {
    if |items| == 1 then 0
    else
      var m := Lowest(items[..|items| - 1]);
      if items[|items| - 1].priority < items[m].priority then |items| - 1 else m
  }

  /** The oldest of the items with the highest priority. */
  function Highest(items: seq<Item>): (r: nat)
    requires items != []
    ensures IsFirstHighest(items, |items|, r)
  {
    if |items| == 1 then 0
    else
      var m := Highest(items[..|items| - 1]);
      if items[m].priority < items[|items| - 1].priority then |items| - 1 else m
  }

  lemma LowestUnique(items: seq<Item>, r: nat)
    requires IsFirstLowest(items, |items|, r)
    ensures items != [] && r == Lowest(items)
  {
  }

  lemma HighestUnique(items: seq<Item>, r: nat)
    requires IsFirstHighest(items, |items|, r)
    ensures items != [] && r == Highest(items)
  {
  }

  /** Whether an enqueue reports success: there is room, or the lowest priority held is lower still. */
  predicate Accepts(items: seq<Item>, capacity: nat, item: Item)
    requires capacity > 0
  {
    |items| < capacity || items[Lowest(items)].priority < item.priority
  }

  function Enqueued(items: seq<Item>, capacity: nat, item: Item): (r: seq<Item>)
    requires capacity > 0
  {
    if |items| < capacity then items + [item]
    else if items[Lowest(items)].priority < item.priority then RemoveAt(items, Lowest(items)) + [item]
    else items
  }

  function Dequeued(items: seq<Item>): (r: seq<Item>)
    requires items != []
    ensures |r| == |items| - 1
  {
    RemoveAt(items, Highest(items))
  }

  /** An item is refused exactly when the queue is full and holds nothing of strictly lower priority. */
  lemma RefusedIff(items: seq<Item>, capacity: nat, item: Item)
    requires capacity > 0
    ensures !Accepts(items, capacity, item)
       <==> |items| >= capacity && forall i :: 0 <= i < |items| ==> item.priority <= items[i].priority
    ensures !Accepts(items, capacity, item) ==> Enqueued(items, capacity, item) == items
  {
  }

  /** A full queue loses for an accepted one the oldest of its items of the lowest priority, a strictly lower one. */
  lemma FullLosesLower(items: seq<Item>, capacity: nat, item: Item) returns (k: nat)
    requires 0 < capacity <= |items| && Accepts(items, capacity, item)
    ensures k < |items| && items[k].priority < item.priority
    ensures forall i :: 0 <= i < |items| ==> items[k].priority <= items[i].priority
    ensures forall i :: 0 <= i < k ==> items[k].priority < items[i].priority
    ensures Enqueued(items, capacity, item) == items[..k] + items[k + 1..] + [item]
  {
    k := Lowest(items);
  }

  // ---------- runs ----------

  /** What an empty queue holds after the offered items have been enqueued one after the other. */
  function Held(capacity: nat, offered: seq<Item>): (r: seq<Item>)
    requires capacity > 0
  {
    if offered == [] then []
    else Enqueued(Held(capacity, offered[..|offered| - 1]), capacity, offered[|offered| - 1])
  }

  /** The items that were rejected or evicted on the way. */
  ghost function Lost(capacity: nat, offered: seq<Item>): (r: seq<Item>)
    requires capacity > 0
  {
    if offered == [] then []
    else
      var before, last := offered[..|offered| - 1], offered[|offered| - 1];
      Lost(capacity, before) + LostIn(Held(capacity, before), capacity, last)
  }

  /** What one enqueue drops: nothing while there is room, else the evicted item or the rejected one. */
  ghost function LostIn(items: seq<Item>, capacity: nat, item: Item): (r: seq<Item>)
    requires capacity > 0
  {
    if |items| < capacity then []
    else if Accepts(items, capacity, item) then [items[Lowest(items)]]
    else [item]
  }

  /** The elements in the order in which repeated dequeues return them. */
  function Drained(items: seq<Item>): (r: seq<Item>)
    ensures |r| == |items|
  {
    if items == [] then [] else [items[Highest(items)]] + Drained(Dequeued(items))
  }

  function Ranking(): (gt: (Item, Item) -> bool) {
    (x: Item, y: Item) => x.priority < y.priority
  }

  lemma RankingIsOrder(domain: iset<Item>)
    ensures StrictWeakOrder(Ranking(), domain)
  {
  }

  // ---------- draining is the stable sort by descending priority ----------

  lemma RemovePermutes<T>(s: seq<T>, k: nat)
    requires k < |s|
    ensures multiset(s) == multiset(RemoveAt(s, k)) + multiset{s[k]}
  {
    assert s == s[..k] + [s[k]] + s[k + 1..];
  }

  lemma {:induction false} DrainedPermutes(items: seq<Item>)
    ensures Permutation(items, Drained(items))
    decreases |items|
  {
    if items != [] {
      RemovePermutes(items, Highest(items));
      DrainedPermutes(Dequeued(items));
    }
  }

  lemma {:induction false} DrainedBelow(items: seq<Item>, bound: nat)
    requires forall j :: 0 <= j < |items| ==> items[j].priority <= bound
    ensures forall j :: 0 <= j < |items| ==> Drained(items)[j].priority <= bound
    decreases |items|
  {
    if items != [] {
      DrainedBelow(Dequeued(items), bound);
    }
  }

  lemma {:induction false} DrainedDescends(items: seq<Item>)
    ensures Sorted(Drained(items), Ranking())
    decreases |items|
  {
    if items != [] {
      DrainedDescends(Dequeued(items));
      DrainedBelow(Dequeued(items), items[Highest(items)].priority);
    }
  }

  lemma ClassWithout(items: seq<Item>, k: nat, x: Item)
    requires k < |items|
    requires forall j :: 0 <= j < k ==> items[j].priority != items[k].priority
    ensures Class(items, x, Ranking()) == Class([items[k]], x, Ranking()) + Class(RemoveAt(items, k), x, Ranking())
  {
    var pre, mid, post := items[..k], [items[k]], items[k + 1..];
    assert items == pre + mid + post;
    ClassConcat(pre + mid, post, x, Ranking());
    ClassConcat(pre, mid, x, Ranking());
    ClassConcat(pre, post, x, Ranking());
    assert mid[1..] == [];
    if x.priority == items[k].priority {
      NoClass(pre, x);
    }
  }

  lemma {:induction false} NoClass(items: seq<Item>, x: Item)
    requires forall j :: 0 <= j < |items| ==> items[j].priority != x.priority
    ensures Class(items, x, Ranking()) == []
  {
    if items != [] {
      NoClass(items[1..], x);
    }
  }

  lemma {:induction false} DrainedKeepsClass(items: seq<Item>, x: Item)
    ensures Class(items, x, Ranking()) == Class(Drained(items), x, Ranking())
    decreases |items|
  {
    if items != [] {
      var k := Highest(items);
      ClassWithout(items, k, x);
      DrainedKeepsClass(Dequeued(items), x);
      ClassConcat([items[k]], Drained(Dequeued(items)), x, Ranking());
    }
  }

  /** Draining returns the items sorted by descending priority, equal priorities in the order of their arrival. */
  lemma DrainIsStableSort(items: seq<Item>)
    ensures Permutation(items, Drained(items))
    ensures Sorted(Drained(items), Ranking())
    ensures Stable(items, Drained(items), Ranking(), Elements(items))
  {
    DrainedPermutes(items);
    DrainedDescends(items);
    forall x | x in Elements(items) ensures Class(items, x, Ranking()) == Class(Drained(items), x, Ranking()) {
      DrainedKeepsClass(items, x);
    }
  }

  /** Any stable sort of the same items is what draining returns. */
  lemma StableSortIsDrain(items: seq<Item>, sorted: seq<Item>)
    requires Sorted(sorted, Ranking()) && Permutation(items, sorted)
    requires Stable(items, sorted, Ranking(), Elements(items))
    ensures sorted == Drained(items)
  {
    DrainIsStableSort(items);
    RankingIsOrder(Elements(items));
    PermutationOver(items, sorted, Elements(items));
    PermutationOver(items, Drained(items), Elements(items));
    StableSortUnique(sorted, Drained(items), Ranking(), Elements(items));
  }

  // ---------- filling ----------

  lemma {:induction false} HeldSize(capacity: nat, offered: seq<Item>)
    requires capacity > 0
    ensures |Held(capacity, offered)| == if |offered| < capacity then |offered| else capacity
    decreases |offered|
  {
    if offered != [] {
      HeldSize(capacity, offered[..|offered| - 1]);
    }
  }

  /** As long as there is room the queue holds exactly what was offered, so fill and drain is the stable sort. */
  lemma {:induction false} FillKeepsAll(capacity: nat, offered: seq<Item>)
    requires capacity > 0 && |offered| <= capacity
    ensures Held(capacity, offered) == offered
    decreases |offered|
  {
    if offered != [] {
      var before := offered[..|offered| - 1];
      FillKeepsAll(capacity, before);
      assert offered == before + [offered[|offered| - 1]];
    }
  }

  // ---------- retention: exactly the highest priorities stay ----------

  ghost predicate Dominated(lost: seq<Item>, held: seq<Item>) {
    forall i, j :: 0 <= i < |lost| && 0 <= j < |held| ==> lost[i].priority <= held[j].priority
  }

  lemma EnqueueDominates(items: seq<Item>, capacity: nat, item: Item, lost: seq<Item>)
    requires 0 < capacity == |items| && Dominated(lost, items)
    ensures Dominated(lost + LostIn(items, capacity, item), Enqueued(items, capacity, item))
  {
    var k := Lowest(items);
    forall i | 0 <= i < |lost| ensures lost[i].priority <= items[k].priority {
    }
  }

  lemma {:induction false} HeldDominates(capacity: nat, offered: seq<Item>)
    requires capacity > 0
    ensures Dominated(Lost(capacity, offered), Held(capacity, offered))
    ensures |offered| <= capacity ==> Lost(capacity, offered) == []
    decreases |offered|
  {
    if offered != [] {
      var before := offered[..|offered| - 1];
      HeldSize(capacity, before);
      HeldDominates(capacity, before);
      if |offered| > capacity {
        EnqueueDominates(Held(capacity, before), capacity, offered[|offered| - 1], Lost(capacity, before));
      }
    }
  }

  /** One enqueue conserves: the new item and those held before are those held after and the one lost, if any. */
  lemma StepConserves(items: seq<Item>, capacity: nat, item: Item)
    requires capacity > 0
    ensures var enqueued := Enqueued(items, capacity, item);
            multiset(items) + multiset{item} == multiset(enqueued) + multiset(LostIn(items, capacity, item))
  {
    if |items| >= capacity && Accepts(items, capacity, item) {
      RemovePermutes(items, Lowest(items));
    }
  }

  /** Taken together, the items held and the items lost are the items offered. */
  ghost predicate Conserved<T>(offered: seq<T>, held: seq<T>, lost: seq<T>) {
    multiset(offered) == multiset(held) + multiset(lost)
  }

  lemma ExtendConserves<T>(before: seq<T>, last: T, held: seq<T>, lost: seq<T>, held': seq<T>, out: seq<T>)
    requires Conserved(before, held, lost)
    requires multiset(held) + multiset{last} == multiset(held') + multiset(out)
    ensures Conserved(before + [last], held', lost + out)
  {
    var h, l, x, e, o := multiset(held), multiset(lost), multiset{last}, multiset(held'), multiset(out);
    assert h + l + x == h + x + l && e + (l + o) == e + o + l;
  }

  lemma ConservesOneMore(items: seq<Item>, capacity: nat, item: Item, before: seq<Item>, lost: seq<Item>)
    requires capacity > 0 && Conserved(before, items, lost)
    ensures Conserved(before + [item], Enqueued(items, capacity, item), lost + LostIn(items, capacity, item))
  {
    StepConserves(items, capacity, item);
    ExtendConserves(before, item, items, lost, Enqueued(items, capacity, item), LostIn(items, capacity, item));
  }

  /** No item is duplicated or disappears: each one offered is either held or lost. */
  lemma {:induction false} EnqueueConserves(capacity: nat, offered: seq<Item>)
    requires capacity > 0
    ensures Conserved(offered, Held(capacity, offered), Lost(capacity, offered))
    decreases |offered|
  {
    if offered != [] {
      var before, last := offered[..|offered| - 1], offered[|offered| - 1];
      EnqueueConserves(capacity, before);
      ConservesOneMore(Held(capacity, before), capacity, last, before, Lost(capacity, before));
      assert offered == before + [last];
    }
  }

  function PrioritiesOf(items: seq<Item>): (r: seq<nat>)
    ensures |r| == |items|
    ensures forall i :: 0 <= i < |items| ==> r[i] == items[i].priority
  {
    seq(|items|, i requires 0 <= i < |items| => items[i].priority)
  }

  function Descending(): (gt: (nat, nat) -> bool) {
    (x: nat, y: nat) => x < y
  }

  lemma PermutationWithout<T>(s: seq<T>, t: seq<T>, i: nat, k: nat)
    requires Permutation(s, t) && i < |s| && k < |t| && s[i] == t[k]
    ensures Permutation(RemoveAt(s, i), RemoveAt(t, k))
  {
    RemovePermutes(s, i);
    RemovePermutes(t, k);
    assert multiset(RemoveAt(s, i)) == multiset(s) - multiset{s[i]};
    assert multiset(RemoveAt(t, k)) == multiset(t) - multiset{s[i]};
  }

  lemma PermutationWith<T>(s: seq<T>, t: seq<T>, i: nat, k: nat)
    requires i < |s| && k < |t| && s[i] == t[k] && Permutation(RemoveAt(s, i), RemoveAt(t, k))
    ensures Permutation(s, t)
  {
    RemovePermutes(s, i);
    RemovePermutes(t, k);
  }

  lemma {:induction false} PrioritiesPermute(s: seq<Item>, t: seq<Item>)
    requires Permutation(s, t)
    ensures Permutation(PrioritiesOf(s), PrioritiesOf(t))
    decreases |s|
  {
    assert |multiset(s)| == |s| && |multiset(t)| == |t|;
    if s != [] {
      assert s[0] in multiset(t);
      var k :| 0 <= k < |t| && t[k] == s[0];
      PermutationWithout(s, t, 0, k);
      PrioritiesPermute(RemoveAt(s, 0), RemoveAt(t, k));
      assert PrioritiesOf(RemoveAt(s, 0)) == RemoveAt(PrioritiesOf(s), 0);
      assert PrioritiesOf(RemoveAt(t, k)) == RemoveAt(PrioritiesOf(t), k);
      PermutationWith(PrioritiesOf(s), PrioritiesOf(t), 0, k);
    }
  }

  lemma SortedPriorities(s: seq<Item>)
    requires Sorted(s, Ranking())
    ensures Sorted(PrioritiesOf(s), Descending())
  {
  }

  lemma SamePriorities(s: seq<Item>, t: seq<Item>)
    requires Permutation(s, t) && Sorted(s, Ranking()) && Sorted(t, Ranking())
    ensures PrioritiesOf(s) == PrioritiesOf(t)
  {
    var p, q := PrioritiesOf(s), PrioritiesOf(t);
    PrioritiesPermute(s, t);
    SortedPriorities(s);
    SortedPriorities(t);
    SortedUnique(p, q, Descending(), Elements(p));
  }

  lemma DominatedConcat(held: seq<Item>, lost: seq<Item>)
    requires Sorted(held, Ranking()) && Sorted(lost, Ranking()) && Dominated(lost, held)
    ensures Sorted(held + lost, Ranking())
  {
  }

  /** The held items drained and then the lost ones are together a descending arrangement of all. */
  lemma HeldBeforeLost(capacity: nat, offered: seq<Item>)
    requires capacity > 0
    ensures var both := Drained(Held(capacity, offered)) + Drained(Lost(capacity, offered));
            Permutation(offered, both) && Sorted(both, Ranking())
  {
    var held, lost := Held(capacity, offered), Lost(capacity, offered);
    DrainIsStableSort(held);
    DrainIsStableSort(lost);
    EnqueueConserves(capacity, offered);
    HeldDominates(capacity, offered);
    DominatedPermuted(lost, held, Drained(lost), Drained(held));
    DominatedConcat(Drained(held), Drained(lost));
  }

  /**
   * Top-k retention: after any run of enqueues, draining the queue yields the first `capacity` priorities of all the
   * offered ones sorted in descending order.
   */
  lemma HeldIsTop(capacity: nat, offered: seq<Item>)
    requires capacity > 0
    ensures var held := Drained(Held(capacity, offered));
            |held| <= |offered| && PrioritiesOf(held) == PrioritiesOf(Drained(offered))[..|held|]
  {
    var held := Drained(Held(capacity, offered));
    var both := held + Drained(Lost(capacity, offered));
    HeldBeforeLost(capacity, offered);
    DrainIsStableSort(offered);
    SamePriorities(both, Drained(offered));
    assert PrioritiesOf(held) == PrioritiesOf(both)[..|held|];
  }

  lemma DominatedPermuted(lost: seq<Item>, held: seq<Item>, lost': seq<Item>, held': seq<Item>)
    requires Dominated(lost, held) && Permutation(lost, lost') && Permutation(held, held')
    ensures Dominated(lost', held')
  {
    forall i, j | 0 <= i < |lost'| && 0 <= j < |held'| ensures lost'[i].priority <= held'[j].priority {
      assert lost'[i] in multiset(lost) && held'[j] in multiset(held);
    }
  }

  // ---------- arrival order ----------

  /** `a` is `b` with some elements left out. */
  ghost predicate Subsequence<T(!new)>(a: seq<T>, b: seq<T>) {
    if a == [] then true
    else if b == [] then false
    else
      || (a[|a| - 1] == b[|b| - 1] && Subsequence(a[..|a| - 1], b[..|b| - 1]))
      || Subsequence(a, b[..|b| - 1])
  }

  lemma {:induction false} SubsequenceRemove<T(!new)>(a: seq<T>, b: seq<T>, k: nat)
    requires Subsequence(a, b) && k < |a|
    ensures Subsequence(RemoveAt(a, k), b)
    decreases |b|
  {
    var a', b' := a[..|a| - 1], b[..|b| - 1];
    if a[|a| - 1] == b[|b| - 1] && Subsequence(a', b') {
      if k == |a| - 1 {
        assert RemoveAt(a, k) == a';
      } else {
        SubsequenceRemove(a', b', k);
        assert RemoveAt(a, k)[..|a| - 2] == RemoveAt(a', k);
        assert RemoveAt(a, k)[|a| - 2] == a[|a| - 1];
      }
    } else {
      SubsequenceRemove(a, b', k);
    }
  }

  /** Whatever was evicted, the items held are still in the order in which they were offered. */
  lemma {:induction false} HeldInArrivalOrder(capacity: nat, offered: seq<Item>)
    requires capacity > 0
    ensures Subsequence(Held(capacity, offered), offered)
    decreases |offered|
  {
    if offered != [] {
      var before, last := offered[..|offered| - 1], offered[|offered| - 1];
      var items := Held(capacity, before);
      HeldInArrivalOrder(capacity, before);
      if |items| < capacity {
        assert (items + [last])[..|items|] == items;
      } else if Accepts(items, capacity, last) {
        SubsequenceRemove(items, before, Lowest(items));
        var kept := RemoveAt(items, Lowest(items));
        assert (kept + [last])[..|kept|] == kept;
      }
    }
  }
}
