/** The ring buffer queue over a caller-supplied byte buffer. */
module RingQueue {
  import opened Common
  import opened Products
  import opened BlockBuffer

  /** `n` places after `front` in a ring of `capacity` slots. */
  function Slot(front: nat, n: nat, capacity: nat): (r: nat)
    requires front < capacity && n <= capacity
    ensures r < capacity
  {
    if front + n < capacity then front + n else front + n - capacity
  }

  /** The `size` elements from `front` on, around the end of the buffer if need be. */
  function Ring<T>(b: seq<T>, front: nat, size: nat): (r: seq<T>)
    requires front < |b| && size <= |b|
    ensures |r| == size
  {
    if front + size <= |b| then b[front..front + size] else b[front..] + b[..front + size - |b|]
  }

  lemma RingAppend<T>(b: seq<T>, front: nat, size: nat, x: T)
    requires front < |b| && size < |b|
    ensures Ring(b[Slot(front, size, |b|) := x], front, size + 1) == Ring(b, front, size) + [x]
  {
  }

  lemma RingDrop<T>(b: seq<T>, front: nat, size: nat)
    requires front < |b| && 0 < size <= |b|
    ensures Ring(b, Slot(front, 1, |b|), size - 1) == Ring(b, front, size)[1..]
  {
  }

  lemma RingEnds<T>(b: seq<T>, front: nat, size: nat)
    requires front < |b| && 0 < size <= |b|
    ensures Ring(b, front, size)[0] == b[front]
    ensures Ring(b, front, size)[size - 1] == b[Slot(front, size - 1, |b|)]
  {
  }

  lemma ModuloSmall(x: nat, m: nat)
    requires x <= m && 0 < m
    ensures x % m == if x == m then 0 else x
  {
  }

  /** (x + 1U) % capacity on 32-bit operands: from a position of the ring to the next one. */
  function Next(x: nat, capacity: nat): (r: nat)
    requires 0 < capacity
  {
    (x + 1) % UINT32_MODULUS % capacity
  }

  /** The sum never wraps, for any capacity that a uint32 can hold. */
  lemma NextIsSlot(x: nat, capacity: nat)
    requires x < capacity < UINT32_MODULUS
    ensures Next(x, capacity) == Slot(x, 1, capacity)
  {
    ModuloSmall(x + 1, UINT32_MODULUS);
    ModuloSmall(x + 1, capacity);
  }

  class Queue {
    var front: nat
    var rear: nat
    var size: nat
    var capacity: nat
    var elementSize: nat
    var buffer: array<bv8>

    /** A struct that has not been initialized yet. */
    constructor ()
      ensures size == capacity == 0
    {
      front, rear, size, capacity, elementSize := 0, 0, 0, 0, 0;
      buffer := new bv8[0];
    }

    ghost predicate Valid()
      reads this, buffer
    {
      && 0 < capacity < UINT32_MODULUS && 0 < elementSize
      && front < capacity && size <= capacity
      && rear == Slot(front, if size == 0 then capacity - 1 else size - 1, capacity)
      && Times(capacity, elementSize) <= buffer.Length
      && Times(capacity, elementSize) < UINT32_MODULUS
    }

    /** The queued elements, oldest first. */
    ghost function Contents(): (r: seq<Block>)
      requires Valid()
      reads this, buffer
      ensures |r| == size
    {
      Ring(Blocks(buffer[..], capacity, elementSize), front, size)
    }

    /** The bytes behind the last slot, which no call touches. */
    ghost function Beyond(): seq<bv8>
      requires Valid()
      reads this, buffer
    {
      buffer[Times(capacity, elementSize)..]
    }

    method Init(capacity: nat, elementSize: nat, buffer: array<bv8>) returns (status: bool)
      requires capacity < UINT32_MODULUS && Times(capacity, elementSize) < UINT32_MODULUS
      requires Times(capacity, elementSize) <= buffer.Length
      modifies this
      ensures status <==> capacity != 0 && elementSize != 0
      ensures status ==> Valid() && Contents() == []
      ensures status ==> this.capacity == capacity && this.elementSize == elementSize && this.buffer == buffer
      ensures !status ==> unchanged(this)
    {
      status := false;
      if elementSize != 0 && capacity != 0 {
        this.capacity := capacity;
        front := 0;
        size := 0;
        rear := capacity - 1;
        this.elementSize := elementSize;
        this.buffer := buffer;
        status := true;
      }
    }

    method Full() returns (full: bool)
      requires Valid()
      ensures full <==> |Contents()| == capacity
    {
      full := size == capacity;
    }

    method Empty() returns (empty: bool)
      requires Valid()
      ensures empty <==> Contents() == []
    {
      empty := size == 0;
    }

    /** The memcpy to slot `next` and the two assignments behind it. */
    method Append(next: nat, element: Block)
      requires Valid() && |element| == elementSize && size < capacity && next == Slot(front, size, capacity)
      modifies this`rear, this`size, buffer
      ensures Valid() && Contents() == old(Contents()) + [element] && Beyond() == old(Beyond())
    {
      RingAppend(Blocks(buffer[..], capacity, elementSize), front, size, element);
      WriteBlock(buffer, next, capacity, elementSize, element);
      rear := next;
      size := size + 1;
    }

    method Enqueue(element: Block) returns (status: bool)
      requires Valid() && |element| == elementSize
      modifies this`rear, this`size, buffer
      ensures Valid()
      ensures status <==> |old(Contents())| < capacity
      ensures Contents() == if status then old(Contents()) + [element] else old(Contents())
      ensures Beyond() == old(Beyond())
    {
      status := false;
      var full := Full();
      if !full {
        NextIsSlot(rear, capacity);
        Append(Next(rear, capacity), element);
        status := true;
      }
    }

    /** The two assignments that give up the oldest element. */
    method Advance(next: nat)
      requires Valid() && size > 0 && next == Slot(front, 1, capacity)
      modifies this`front, this`size
      ensures Valid() && Contents() == old(Contents())[1..]
    {
      RingDrop(Blocks(buffer[..], capacity, elementSize), front, size);
      front := next;
      size := size - 1;
    }

    method Dequeue(element: array<bv8>) returns (status: bool)
      requires Valid() && element.Length == elementSize && element != buffer
      modifies this`front, this`size, element
      ensures Valid()
      ensures status <==> old(Contents()) != []
      ensures status ==> old(Contents()) == [element[..]] + Contents()
      ensures !status ==> element[..] == old(element[..]) && Contents() == old(Contents())
    {
      status := false;
      var empty := Empty();
      if !empty {
        ghost var contents := Contents();
        assert contents[0] == Blocks(buffer[..], capacity, elementSize)[front] by {
          RingEnds(Blocks(buffer[..], capacity, elementSize), front, size);
        }
        CopyBlock(element, buffer, front, capacity, elementSize);
        assert Contents() == contents;
        NextIsSlot(front, capacity);
        Advance(Next(front, capacity));
        status := true;
        assert contents == [contents[0]] + contents[1..];
      }
    }

    method Front(element: array<bv8>) returns (status: bool)
      requires Valid() && element.Length == elementSize && element != buffer
      modifies element
      ensures Valid() && Contents() == old(Contents())
      ensures status <==> Contents() != []
      ensures element[..] == if status then Contents()[0] else old(element[..])
    {
      status := false;
      var empty := Empty();
      if !empty {
        RingEnds(Blocks(buffer[..], capacity, elementSize), front, size);
        CopyBlock(element, buffer, front, capacity, elementSize);
        status := true;
      }
    }

    method Rear(element: array<bv8>) returns (status: bool)
      requires Valid() && element.Length == elementSize && element != buffer
      modifies element
      ensures Valid() && Contents() == old(Contents())
      ensures status <==> Contents() != []
      ensures element[..] == if status then Contents()[|Contents()| - 1] else old(element[..])
    {
      status := false;
      var empty := Empty();
      if !empty {
        RingEnds(Blocks(buffer[..], capacity, elementSize), front, size);
        CopyBlock(element, buffer, rear, capacity, elementSize);
        status := true;
      }
    }
  }

  // ---------- runs ----------

  datatype Operation = Enqueue(element: Block) | Dequeue

  /** The contents after a run of calls, by the contracts above. */
  function After(contents: seq<Block>, capacity: nat, run: seq<Operation>): (r: seq<Block>)
    decreases |run|
  {
    if run == [] then contents
    else
      match run[0]
      case Enqueue(x) => After(if |contents| < capacity then contents + [x] else contents, capacity, run[1..])
      case Dequeue => After(if contents != [] then contents[1..] else contents, capacity, run[1..])
  }

  /** The elements whose enqueue reported success, in order. */
  function Accepted(contents: seq<Block>, capacity: nat, run: seq<Operation>): (r: seq<Block>)
    decreases |run|
  {
    if run == [] then []
    else
      match run[0]
      case Enqueue(x) =>
        if |contents| < capacity then [x] + Accepted(contents + [x], capacity, run[1..])
        else Accepted(contents, capacity, run[1..])
      case Dequeue => Accepted(if contents != [] then contents[1..] else contents, capacity, run[1..])
  }

  /** The elements that successful dequeues delivered, in order. */
  function Delivered(contents: seq<Block>, capacity: nat, run: seq<Operation>): (r: seq<Block>)
    decreases |run|
  {
    if run == [] then []
    else
      match run[0]
      case Enqueue(x) => Delivered(if |contents| < capacity then contents + [x] else contents, capacity, run[1..])
      case Dequeue =>
        if contents != [] then [contents[0]] + Delivered(contents[1..], capacity, run[1..])
        else Delivered(contents, capacity, run[1..])
  }

  /**
   * First in, first out, over every run: what was in the queue and what it accepted is exactly what it delivered
   * followed by what it still holds, and it never holds more than its capacity.
   */
  lemma {:induction false} FirstInFirstOut(contents: seq<Block>, capacity: nat, run: seq<Operation>)
    requires |contents| <= capacity
    ensures contents + Accepted(contents, capacity, run)
         == Delivered(contents, capacity, run) + After(contents, capacity, run)
    ensures |After(contents, capacity, run)| <= capacity
    decreases |run|
  {
    if run != [] {
      match run[0]
      case Enqueue(x) =>
        if |contents| < capacity {
          FirstInFirstOut(contents + [x], capacity, run[1..]);
          assert contents + ([x] + Accepted(contents + [x], capacity, run[1..]))
              == contents + [x] + Accepted(contents + [x], capacity, run[1..]);
        } else {
          FirstInFirstOut(contents, capacity, run[1..]);
        }
      case Dequeue =>
        if contents != [] {
          var rest := contents[1..];
          FirstInFirstOut(rest, capacity, run[1..]);
          assert contents + Accepted(rest, capacity, run[1..])
              == [contents[0]] + (rest + Accepted(rest, capacity, run[1..]));
          assert [contents[0]] + Delivered(rest, capacity, run[1..]) + After(rest, capacity, run[1..])
              == [contents[0]] + (Delivered(rest, capacity, run[1..]) + After(rest, capacity, run[1..]));
        } else {
          FirstInFirstOut(contents, capacity, run[1..]);
        }
    }
  }
}
