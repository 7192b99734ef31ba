/** The bounded priority queue over a caller-supplied priority array and byte buffer. */
module PriorityQueue {
  import opened Common
  import opened Products
  import opened BlockBuffer
  import opened PrioritySpec

  class Queue {
    var size: nat
    var capacity: nat
    var elementSize: nat
    var priorityArray: array<nat>
    var buffer: array<bv8>

    /** A struct that has not been initialized yet. */
    constructor ()
      ensures size == capacity == 0
    {
      size, capacity, elementSize := 0, 0, 0;
      priorityArray, buffer := new nat[0], new bv8[0];
    }

    ghost predicate Valid()
      reads this, priorityArray, buffer
    {
      && size <= capacity < UINT32_MODULUS && 0 < capacity && 0 < elementSize
      && Times(capacity, elementSize) < UINT32_MODULUS
      && Times(capacity, elementSize) <= buffer.Length && capacity <= priorityArray.Length
      && buffer != priorityArray as object
    }

    /** All slots of the two arrays, each priority paired with the bytes stored under the same index. */
    ghost function Slots(): (r: seq<Item>)
      requires Valid()
      reads this, priorityArray, buffer
      ensures |r| == capacity
    {
      Paired(priorityArray[..capacity], Blocks(buffer[..], capacity, elementSize))
    }

    /** The queue as a list in insertion order. */
    ghost function Items(): (r: seq<Item>)
      requires Valid()
      reads this, priorityArray, buffer
      ensures |r| == size
    {
      Slots()[..size]
    }

    /** Whatever lies behind the last slots, which no call touches. */
    ghost function Beyond(): (seq<nat>, seq<bv8>)
      requires Valid()
      reads this, priorityArray, buffer
    {
      (priorityArray[capacity..], buffer[Times(capacity, elementSize)..])
    }

    method Init(capacity: nat, elementSize: nat, priority: array<nat>, element: array<bv8>) returns (status: bool)
      requires capacity < UINT32_MODULUS && Times(capacity, elementSize) < UINT32_MODULUS
      requires Times(capacity, elementSize) <= element.Length && capacity <= priority.Length
      requires element != priority as object
      modifies this
      ensures status <==> capacity != 0 && elementSize != 0
      ensures status ==> Valid() && Items() == [] && this.capacity == capacity && this.elementSize == elementSize
      ensures status ==> priorityArray == priority && buffer == element
      ensures !status ==> unchanged(this)
    {
      status := false;
      if capacity != 0 && elementSize != 0 {
        this.capacity := capacity;
        size := 0;
        this.elementSize := elementSize;
        priorityArray := priority;
        buffer := element;
        status := true;
      }
    }

    method Full() returns (full: bool)
      requires Valid()
      ensures full <==> |Items()| == capacity
    {
      full := size == capacity;
    }

    method Empty() returns (empty: bool)
      requires Valid()
      ensures empty <==> Items() == []
    {
      empty := size == 0;
    }

    method GetHighestPriorityIndex() returns (index: nat)
      requires Valid() && size > 0
      ensures IsFirstHighest(Items(), size, index)
    {
      var highestPriority := priorityArray[0];
      index := 0;
      for i := 0 to size
        invariant index < size && highestPriority == priorityArray[index]
        invariant forall j :: 0 <= j < i ==> priorityArray[j] <= highestPriority
        invariant forall j :: 0 <= j < index ==> priorityArray[j] < highestPriority
      {
        if highestPriority < priorityArray[i] {
          highestPriority := priorityArray[i];
          index := i;
        }
      }
    }

    method GetLowestPriorityIndex() returns (index: nat)
      requires Valid() && size > 0
      ensures IsFirstLowest(Items(), size, index)
    {
      var lowestPriority := priorityArray[0];
      index := 0;
      for i := 0 to size
        invariant index < size && lowestPriority == priorityArray[index]
        invariant forall j :: 0 <= j < i ==> lowestPriority <= priorityArray[j]
        invariant forall j :: 0 <= j < index ==> lowestPriority < priorityArray[j]
      {
        if lowestPriority > priorityArray[i] {
          lowestPriority := priorityArray[i];
          index := i;
        }
      }
    }

    /** memcpy of an element and its priority into slot `i`. */
    method Store(i: nat, item: Item)
      requires Valid() && i < capacity && |item.element| == elementSize
      modifies buffer, priorityArray
      ensures Valid() && Slots() == old(Slots())[i := item] && Beyond() == old(Beyond())
    {
      WriteBlock(buffer, i, capacity, elementSize, item.element);
      priorityArray[i] := item.priority;
    }

    /** One iteration of the loop below: slot `i + 1` copied onto slot `i`. */
    method MoveDown(i: nat)
      requires Valid() && i + 1 < capacity
      modifies buffer, priorityArray
      ensures Valid() && Slots() == old(Slots())[i := old(Slots())[i + 1]] && Beyond() == old(Beyond())
    {
      var next := ReadBlock(buffer, i + 1, capacity, elementSize);
      Store(i, Item(priorityArray[i + 1], next));
    }

    /** The loop that closes the gap at `from`: every later slot moves one place down, up to `size`. */
    method ShiftDown(from: nat)
      requires Valid() && from <= size < capacity
      modifies buffer, priorityArray
      ensures Valid() && Slots()[..size] == RemoveAt(old(Slots())[..size + 1], from)
      ensures Beyond() == old(Beyond())
    {
      ghost var before, goal, beyond := Slots(), Shifted(Slots(), from, size), Beyond();
      for i := from to size
        invariant Valid() && Beyond() == beyond
        invariant goal == Shifted(Slots(), i, size)
      {
        MoveDown(i);
      }
      ShiftedRemoves(before, from, size);
    }

    /** Stores an item behind the last one. */
    method Append(item: Item)
      requires Valid() && size < capacity && |item.element| == elementSize
      modifies this`size, buffer, priorityArray
      ensures Valid() && Items() == old(Items()) + [item] && Beyond() == old(Beyond())
    {
      Store(size, item);
      size := size + 1;
    }

    method Enqueue(item: Item) returns (status: bool)
      requires Valid() && |item.element| == elementSize
      modifies this`size, buffer, priorityArray
      ensures Valid()
      ensures status == Accepts(old(Items()), capacity, item)
      ensures Items() == Enqueued(old(Items()), capacity, item)
      ensures Beyond() == old(Beyond())
    {
      status := false;
      var full := Full();
      if !full {
        Append(item);
        status := true;
      } else {
        var lowestPriorityIndex := GetLowestPriorityIndex();
        LowestUnique(Items(), lowestPriorityIndex);
        if priorityArray[lowestPriorityIndex] < item.priority {
          status := true;
          size := size - 1;
          ShiftDown(lowestPriorityIndex);
          assert Items() == RemoveAt(old(Items()), lowestPriorityIndex);
          Append(item);
        }
      }
    }

    method Dequeue(element: array<bv8>) returns (status: bool)
      requires Valid() && element.Length == elementSize
      requires element != buffer && element != priorityArray as object
      modifies this`size, buffer, priorityArray, element
      ensures Valid()
      ensures status == (old(Items()) != [])
      ensures status ==> element[..] == old(Items())[Highest(old(Items()))].element
      ensures status ==> Items() == Dequeued(old(Items()))
      ensures !status ==> element[..] == old(element[..]) && Items() == old(Items())
      ensures Beyond() == old(Beyond())
    {
      status := false;
      var empty := Empty();
      if !empty {
        status := true;
        var highestPriorityIndex := GetHighestPriorityIndex();
        HighestUnique(Items(), highestPriorityIndex);
        CopyBlock(element, buffer, highestPriorityIndex, capacity, elementSize);
        size := size - 1;
        assert Items() == old(Items())[..size];
        ShiftDown(highestPriorityIndex);
        assert old(Slots())[..size + 1] == old(Items());
      }
    }
  }

  /** Each slot from `i` up to `n` overwritten with its successor, in this order. */
  ghost function Shifted<T>(s: seq<T>, i: nat, n: nat): (r: seq<T>)
    requires n < |s|
    ensures |r| == |s|
    decreases n - i
  {
    if i >= n then s else Shifted(s[i := s[i + 1]], i + 1, n)
  }

  lemma {:induction false} ShiftedRemoves<T>(s: seq<T>, i: nat, n: nat)
    requires i <= n < |s|
    ensures Shifted(s, i, n)[..n] == RemoveAt(s[..n + 1], i)
    decreases n - i
  {
    if i < n {
      var t := s[i := s[i + 1]];
      ShiftedRemoves(t, i + 1, n);
      assert RemoveAt(t[..n + 1], i + 1) == RemoveAt(s[..n + 1], i);
    }
  }

  function Paired(priorities: seq<nat>, blocks: seq<Block>): (r: seq<Item>)
    requires |priorities| == |blocks|
    ensures |r| == |blocks|
    ensures forall i :: 0 <= i < |r| ==> r[i] == Item(priorities[i], blocks[i])
  {
    seq(|blocks|, i requires 0 <= i < |blocks| => Item(priorities[i], blocks[i]))
  }
}
