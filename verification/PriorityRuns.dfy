/** Runs of the bounded priority queue that mix enqueues and dequeues. */
module PriorityRuns {
  import opened Ordering
  import opened PrioritySpec

  datatype Operation = Enqueue(item: Item) | Dequeue

  /** What a call leaves in the queue. */
  function Next(items: seq<Item>, capacity: nat, op: Operation): (r: seq<Item>)
    requires capacity > 0
  {
    match op
    case Enqueue(x) => Enqueued(items, capacity, x)
    case Dequeue => if items == [] then [] else Dequeued(items)
  }

  /** What a call takes in: the item of an enqueue that reports success. */
  function Entering(items: seq<Item>, capacity: nat, op: Operation): (r: seq<Item>)
    requires capacity > 0
  {
    if op.Enqueue? && Accepts(items, capacity, op.item) then [op.item] else []
  }

  /** What a call lets go: the item that a dequeue delivers, or the one that an accepted enqueue evicts. */
  function Leaving(items: seq<Item>, capacity: nat, op: Operation): (r: seq<Item>)
    requires capacity > 0
  {
    match op
    case Enqueue(x) =>
      if |items| >= capacity && Accepts(items, capacity, x) then [items[Lowest(items)]] else []
    case Dequeue => if items == [] then [] else [items[Highest(items)]]
  }

  function After(items: seq<Item>, capacity: nat, run: seq<Operation>): (r: seq<Item>)
    requires capacity > 0
    decreases |run|
  {
    if run == [] then items else After(Next(items, capacity, run[0]), capacity, run[1..])
  }

  function Entered(items: seq<Item>, capacity: nat, run: seq<Operation>): (r: seq<Item>)
    requires capacity > 0
    decreases |run|
  {
    if run == [] then []
    else Entering(items, capacity, run[0]) + Entered(Next(items, capacity, run[0]), capacity, run[1..])
  }

  function Left(items: seq<Item>, capacity: nat, run: seq<Operation>): (r: seq<Item>)
    requires capacity > 0
    decreases |run|
  {
    if run == [] then []
    else Leaving(items, capacity, run[0]) + Left(Next(items, capacity, run[0]), capacity, run[1..])
  }

  // ---------- one call ----------

  lemma StepKeepsBound(items: seq<Item>, capacity: nat, op: Operation)
    requires 0 < capacity && |items| <= capacity
    ensures |Next(items, capacity, op)| <= capacity
  {
  }

  /** The items of one priority leave in the order in which they entered: eviction and delivery both take the oldest. */
  lemma StepIsFifo(items: seq<Item>, capacity: nat, op: Operation, x: Item)
    requires capacity > 0
    ensures Class(items, x, Ranking()) + Class(Entering(items, capacity, op), x, Ranking())
         == Class(Leaving(items, capacity, op), x, Ranking()) + Class(Next(items, capacity, op), x, Ranking())
  {
    match op
    case Enqueue(y) =>
      if |items| < capacity {
        ClassConcat(items, [y], x, Ranking());
      } else if Accepts(items, capacity, y) {
        var k := Lowest(items);
        ClassWithout(items, k, x);
        ClassConcat(RemoveAt(items, k), [y], x, Ranking());
      }
    case Dequeue =>
      if items != [] {
        ClassWithout(items, Highest(items), x);
      }
  }

  lemma StepConserved(items: seq<Item>, capacity: nat, op: Operation)
    requires capacity > 0
    ensures multiset(items) + multiset(Entering(items, capacity, op))
         == multiset(Leaving(items, capacity, op)) + multiset(Next(items, capacity, op))
  {
    match op
    case Enqueue(y) =>
      if |items| >= capacity && Accepts(items, capacity, y) {
        RemovePermutes(items, Lowest(items));
      }
    case Dequeue =>
      if items != [] {
        RemovePermutes(items, Highest(items));
      }
  }

  // ---------- whole runs ----------

  lemma Chain<T>(items: seq<T>, enter: seq<T>, entered: seq<T>, leave: seq<T>, next: seq<T>, left: seq<T>,
                 after: seq<T>)
    requires items + enter == leave + next && next + entered == left + after
    ensures items + (enter + entered) == leave + left + after
  {
    assert items + (enter + entered) == items + enter + entered;
    assert leave + next + entered == leave + (next + entered);
  }

  /**
   * Every run, started from any contents: within each priority the queue is first in, first out. What was held and
   * what entered is, in this order, what left followed by what is still held.
   */
  lemma {:induction false} EachPriorityIsFifo(items: seq<Item>, capacity: nat, run: seq<Operation>, x: Item)
    requires capacity > 0
    ensures Class(items, x, Ranking()) + Class(Entered(items, capacity, run), x, Ranking())
         == Class(Left(items, capacity, run), x, Ranking()) + Class(After(items, capacity, run), x, Ranking())
    decreases |run|
  {
    var gt := Ranking();
    if run != [] {
      var next, rest := Next(items, capacity, run[0]), run[1..];
      var enter, leave := Entering(items, capacity, run[0]), Leaving(items, capacity, run[0]);
      var entered, left := Entered(next, capacity, rest), Left(next, capacity, rest);
      StepIsFifo(items, capacity, run[0], x);
      EachPriorityIsFifo(next, capacity, rest, x);
      ClassConcat(enter, entered, x, gt);
      ClassConcat(leave, left, x, gt);
      Chain(Class(items, x, gt), Class(enter, x, gt), Class(entered, x, gt), Class(leave, x, gt),
            Class(next, x, gt), Class(left, x, gt), Class(After(next, capacity, rest), x, gt));
    }
  }

  lemma ChainMultiset<T>(items: multiset<T>, enter: seq<T>, entered: seq<T>, leave: seq<T>, next: multiset<T>,
                         left: seq<T>, after: multiset<T>)
    requires items + multiset(enter) == multiset(leave) + next && next + multiset(entered) == multiset(left) + after
    ensures items + multiset(enter + entered) == multiset(leave + left) + after
  {
    var e, f, l, m := multiset(enter), multiset(entered), multiset(leave), multiset(left);
    assert multiset(enter + entered) == e + f && multiset(leave + left) == l + m;
    assert items + (e + f) == items + e + f && l + m + after == l + (m + after);
  }

  /** No item is duplicated or lost on the way. */
  lemma {:induction false} RunConserves(items: seq<Item>, capacity: nat, run: seq<Operation>)
    requires capacity > 0
    ensures multiset(items) + multiset(Entered(items, capacity, run))
         == multiset(Left(items, capacity, run)) + multiset(After(items, capacity, run))
    decreases |run|
  {
    if run != [] {
      var next, rest := Next(items, capacity, run[0]), run[1..];
      StepConserved(items, capacity, run[0]);
      RunConserves(next, capacity, rest);
      ChainMultiset(multiset(items), Entering(items, capacity, run[0]), Entered(next, capacity, rest),
                    Leaving(items, capacity, run[0]), multiset(next), Left(next, capacity, rest),
                    multiset(After(next, capacity, rest)));
    }
  }

  /** The queue never holds more than its capacity. */
  lemma {:induction false} RunKeepsBound(items: seq<Item>, capacity: nat, run: seq<Operation>)
    requires 0 < capacity && |items| <= capacity
    ensures |After(items, capacity, run)| <= capacity
    decreases |run|
  {
    if run != [] {
      StepKeepsBound(items, capacity, run[0]);
      RunKeepsBound(Next(items, capacity, run[0]), capacity, run[1..]);
    }
  }
}
