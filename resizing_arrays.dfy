/** Resizing-array stack and queue. Each keeps its items in an array whose
    capacity starts at 1, doubles when a push finds it full and halves when
    a pop finds it a quarter full, so the capacity stays a power of two and
    the array stays at least a quarter full. The queue uses the array as a
    ring buffer between head and tail. */
module ResizingArrays {
  import opened Wrappers
  import opened GridArith

  /** c is 1, 2, 4, 8, ... */
  predicate IsPow2(c: int)
    decreases if c < 1 then 0 else c
  {
    c == 1 || (c > 1 && c % 2 == 0 && IsPow2(c / 2))
  }

  /** Doubling a power of two gives a power of two. */
  lemma Pow2Double(c: int)
    requires IsPow2(c)
    ensures IsPow2(2 * c)
  {
    assert (2 * c) / 2 == c;
  }

  /** A power of two other than 1 halves to a power of two. */
  lemma Pow2Half(c: int)
    requires IsPow2(c) && c >= 2
    ensures IsPow2(c / 2)
  {
  }

  /** The array slot of item i of a ring buffer of capacity c whose first
      item sits at slot h. */
  function Slot(h: int, i: int, c: int): int
    requires c > 0
  {
    (h + i) % c
  }

  /** Index arithmetic of the ring buffer: below twice the capacity, the
      remainder subtracts the capacity at most once. */
  lemma Wrap(h: int, i: int, c: int)
    requires c > 0 && 0 <= h + i < 2 * c
    ensures Slot(h, i, c) == if h + i < c then h + i else h + i - c
  {
    if h + i < c {
      DivModUnique(h + i, c, 0, h + i);
    } else {
      DivModUnique(h + i, c, 1, h + i - c);
    }
  }

  /** The items of a ring buffer occupy distinct slots. */
  lemma RingDistinct(h: int, i: int, j: int, c: int)
    requires 0 <= h < c && 0 <= i < j < c
    ensures Slot(h, i, c) != Slot(h, j, c)
  {
    Wrap(h, i, c);
    Wrap(h, j, c);
  }

  /** Stepping one slot on, modulo the capacity, from the slot of item i
      reaches the slot of item i + 1; after the last slot comes slot 0. */
  lemma RingStep(h: int, i: int, c: int)
    requires 0 <= h < c && 0 <= i < c
    ensures (Slot(h, i, c) + 1) % c == Slot(h, i + 1, c)
  {
    Wrap(h, i, c);
    Wrap(h, i + 1, c);
    Wrap(Slot(h, i, c), 1, c);
  }

  /** Item i + 1 counted from slot h is item i counted from the slot after
      h: moving head on by one drops the front item. */
  lemma RingShift(h: int, i: int, c: int)
    requires 0 <= h < c && 0 <= i < c
    ensures Slot(Slot(h, 1, c), i, c) == Slot(h, i + 1, c)
  {
    Wrap(h, 1, c);
    Wrap(h, i + 1, c);
    Wrap(Slot(h, 1, c), i, c);
  }

  /** A full ring buffer ends where it starts. */
  lemma RingFull(h: int, c: int)
    requires 0 <= h < c
    ensures Slot(h, c, c) == h
  {
    Wrap(h, c, c);
  }

  /** The items of s in the opposite order. */
  function Reverse<T>(s: seq<T>): (r: seq<T>)
    ensures |r| == |s|
    ensures forall i :: 0 <= i < |s| ==> r[i] == s[|s| - 1 - i]
  {
    if s == [] then [] else Reverse(s[1..]) + [s[0]]
  }

  // ---------------------------------------------------------------------
  // Stack

  class Stack<T(0)> {
    var buffer: array<T>
    var capacity: int
    var numberOfItems: int
    /** The items from the bottom of the stack to its top. */
    ghost var Contents: seq<T>

    ghost predicate Valid()
      reads this, buffer
    {
      && capacity == buffer.Length && IsPow2(capacity)
      && 0 <= numberOfItems <= capacity && capacity / 4 <= numberOfItems
      && Contents == buffer[..numberOfItems]
    }

    /** An empty stack over an array of capacity 1. */
    constructor ()
      ensures Valid() && fresh(buffer)
      ensures Contents == [] && capacity == 1
    {
      buffer := new T[1];
      capacity := 1;
      numberOfItems := 0;
      Contents := [];
    }

    /** resize: copies the items into a fresh array of the new capacity. */
    method Resize(newCapacity: int)
      requires 0 <= numberOfItems <= newCapacity && numberOfItems <= buffer.Length
      modifies this
      ensures fresh(buffer) && buffer.Length == newCapacity && capacity == newCapacity
      ensures numberOfItems == old(numberOfItems) && Contents == old(Contents)
      ensures buffer[..numberOfItems] == old(buffer[..numberOfItems])
    {
      var newArray := new T[newCapacity];
      var n, a := numberOfItems, buffer;
      for i := 0 to n
        invariant newArray[..i] == a[..i]
        modifies newArray
      {
        newArray[i] := a[i];
      }
      buffer := newArray;
      capacity := newCapacity;
    }

    /** push: the item goes on top; a full array is first doubled. */
    method Push(x: T)
      requires Valid()
      modifies this, buffer
      ensures Valid()
      ensures Contents == old(Contents) + [x]
      ensures capacity == if old(numberOfItems) == old(capacity) then 2 * old(capacity) else old(capacity)
    {
      if numberOfItems == capacity {
        Pow2Double(capacity);
        Resize(2 * capacity);
      }
      buffer[numberOfItems] := x;
      numberOfItems := numberOfItems + 1;
      Contents := Contents + [x];
    }

    /** pop: the item on top comes off; an array a quarter full is first
        halved, and popping an empty stack is a logic error. */
    method Pop() returns (r: Result<T>)
      requires Valid()
      modifies this
      ensures Valid()
      ensures old(Contents) == [] ==> r == Failure(LogicError) && unchanged(this)
      ensures old(Contents) != [] ==>
        && r == Success(old(Contents)[|old(Contents)| - 1])
        && Contents == old(Contents)[..|old(Contents)| - 1]
        && capacity == if old(numberOfItems) == old(capacity) / 4 then old(capacity) / 2 else old(capacity)
    {
      if IsEmpty() {
        return Failure(LogicError);
      }
      if numberOfItems == capacity / 4 {
        Pow2Half(capacity);
        Resize(capacity / 2);
      }
      numberOfItems := numberOfItems - 1;
      Contents := Contents[..numberOfItems];
      return Success(buffer[numberOfItems]);
    }

    /** is_empty: whether the stack holds no items. */
    function IsEmpty(): (r: bool)
      requires Valid()
      reads this, buffer
      ensures r <==> Contents == []
    {
      numberOfItems == 0
    }

    /** size: the number of items. */
    function Size(): (r: int)
      requires Valid()
      reads this, buffer
      ensures r == |Contents|
    {
      numberOfItems
    }

    /** max_size: the array's capacity, a power of two no smaller than the
        number of items and at most four times it (or 1). */
    function MaxSize(): (r: int)
      requires Valid()
      reads this, buffer
      ensures r == buffer.Length && IsPow2(r)
      ensures |Contents| <= r && (r / 4 <= |Contents|)
    {
      capacity
    }

    /** The begin/end iteration: from index N - 1 down to the end index -1,
        so from the top of the stack to its bottom. */
    method Items() returns (s: seq<T>)
      requires Valid()
      ensures s == Reverse(Contents)
    {
      s := [];
      var index := numberOfItems - 1;
      while index != -1
        invariant -1 <= index < numberOfItems
        invariant |s| == numberOfItems - 1 - index
        invariant forall k :: 0 <= k < |s| ==> s[k] == Contents[numberOfItems - 1 - k]
        decreases index
      {
        s := s + [buffer[index]];
        index := index - 1;
      }
    }
  }

  // ---------------------------------------------------------------------
  // Queue

  class Queue<T(0)> {
    var buffer: array<T>
    var head: int
    var tail: int
    var numberOfItems: int
    var capacity: int
    /** The items from the front of the queue to its back. */
    ghost var Contents: seq<T>

    ghost predicate Valid()
      reads this, buffer
    {
      && capacity == buffer.Length && IsPow2(capacity)
      && 0 <= head < capacity
      && 0 <= numberOfItems <= capacity && capacity / 4 <= numberOfItems
      && tail == Slot(head, numberOfItems, capacity)
      && |Contents| == numberOfItems
      && forall i :: 0 <= i < numberOfItems ==> Contents[i] == buffer[Slot(head, i, capacity)]
    }

    /** An empty queue over an array of capacity 1. */
    constructor ()
      ensures Valid() && fresh(buffer)
      ensures Contents == [] && capacity == 1
    {
      buffer := new T[1];
      head, tail, numberOfItems, capacity := 0, 0, 0, 1;
      Contents := [];
    }

    /** resize: copies the items in queue order to the front of a fresh
        array of the new capacity; head becomes 0 and tail N. */
    method Resize(newCapacity: int)
      requires Valid() && numberOfItems < newCapacity
      modifies this
      ensures fresh(buffer) && buffer.Length == newCapacity && capacity == newCapacity
      ensures numberOfItems == old(numberOfItems) && Contents == old(Contents)
      ensures head == 0 && tail == numberOfItems
      ensures buffer[..numberOfItems] == Contents
    {
      var newArray := new T[newCapacity];
      var n, a, h, c := numberOfItems, buffer, head, capacity;
      ghost var C := Contents;
      for i := 0 to n
        invariant forall k :: 0 <= k < i ==> newArray[k] == C[k]
        modifies newArray
      {
        newArray[i] := a[(h + i) % c];
        assert newArray[i] == a[Slot(h, i, c)];
      }
      buffer := newArray;
      capacity := newCapacity;
      head := 0;
      tail := numberOfItems;
    }

    /** After a resize the items sit at the front of the array. */
    lemma Unwrapped()
      requires capacity == buffer.Length && 0 <= numberOfItems < capacity && head == 0
      requires buffer[..numberOfItems] == Contents
      ensures forall i :: 0 <= i < numberOfItems ==> Contents[i] == buffer[Slot(head, i, capacity)]
      ensures tail == numberOfItems ==> tail == Slot(head, numberOfItems, capacity)
    {
      forall i | 0 <= i < numberOfItems
        ensures Contents[i] == buffer[Slot(head, i, capacity)]
      {
        Wrap(0, i, capacity);
      }
      Wrap(0, numberOfItems, capacity);
    }

    /** enqueue: the item goes at tail, which moves on by one slot; a full
        array is first doubled. */
    method Enqueue(x: T)
      requires Valid()
      modifies this, buffer
      ensures Valid()
      ensures Contents == old(Contents) + [x]
      ensures capacity == if old(numberOfItems) == old(capacity) then 2 * old(capacity) else old(capacity)
    {
      if numberOfItems == capacity {
        Pow2Double(capacity);
        Resize(2 * capacity);
        Unwrapped();
      }
      ghost var C, a := Contents, buffer[..];
      var n := numberOfItems;
      RingStep(head, n, capacity);
      buffer[tail] := x;
      tail := (tail + 1) % capacity;
      numberOfItems := n + 1;
      Contents := C + [x];
      forall i | 0 <= i < numberOfItems
        ensures Contents[i] == buffer[Slot(head, i, capacity)]
      {
        if i < n {
          RingDistinct(head, i, n, capacity);
          assert C[i] == a[Slot(head, i, capacity)];
        }
      }
    }

    /** dequeue: the item at head comes off and head moves on by one slot;
        an array a quarter full is first halved, and dequeuing from an
        empty queue is a logic error. */
    method Dequeue() returns (r: Result<T>)
      requires Valid()
      modifies this
      ensures Valid()
      ensures old(Contents) == [] ==> r == Failure(LogicError) && unchanged(this)
      ensures old(Contents) != [] ==>
        && r == Success(old(Contents)[0])
        && Contents == old(Contents)[1..]
        && capacity == if old(numberOfItems) == old(capacity) / 4 then old(capacity) / 2 else old(capacity)
    {
      if IsEmpty() {
        return Failure(LogicError);
      }
      if numberOfItems == capacity / 4 {
        Pow2Half(capacity);
        Resize(capacity / 2);
        Unwrapped();
      }
      ghost var C := Contents;
      var h, n := head, numberOfItems;
      assert C[0] == buffer[h] by {
        Wrap(h, 0, capacity);
      }
      var data := buffer[head];
      RingShift(h, n - 1, capacity);
      head := (head + 1) % capacity;
      assert head == Slot(h, 1, capacity);
      numberOfItems := n - 1;
      Contents := C[1..];
      forall i | 0 <= i < numberOfItems
        ensures Contents[i] == buffer[Slot(head, i, capacity)]
      {
        RingShift(h, i, capacity);
      }
      return Success(data);
    }

    /** is_empty: whether the queue holds no items. */
    function IsEmpty(): (r: bool)
      requires Valid()
      reads this, buffer
      ensures r <==> Contents == []
    {
      numberOfItems == 0
    }

    /** size: the number of items. */
    function Size(): (r: int)
      requires Valid()
      reads this, buffer
      ensures r == |Contents|
    {
      numberOfItems
    }

    /** max_size: the array's capacity, a power of two no smaller than the
        number of items and at most four times it (or 1). */
    function MaxSize(): (r: int)
      requires Valid()
      reads this, buffer
      ensures r == buffer.Length && IsPow2(r)
      ensures |Contents| <= r && r / 4 <= |Contents|
    {
      capacity
    }

    /** The begin/end iteration as written: from slot head, one slot at a
        time modulo the capacity, until slot tail. A full queue has head ==
        tail and so visits nothing. */
    method Items() returns (s: seq<T>)
      requires Valid()
      ensures s == if |Contents| == capacity then [] else Contents
    {
      var a, h, t, c := buffer, head, tail, capacity;
      ghost var n, C := numberOfItems, Contents;
      ghost var bound := if n == c then 0 else n;
      if n == c {
        RingFull(h, c);
      }
      Wrap(h, 0, c);
      s := [];
      var index := h;
      ghost var k := 0;
      while index != t
        invariant 0 <= k <= bound && index == Slot(h, k, c)
        invariant s == C[..k]
        decreases bound - k
      {
        if k == bound {
          assert false;
        }
        RingDistinct(h, k, n, c);
        RingStep(h, k, c);
        s := s + [a[index]];
        index := (index + 1) % c;
        k := k + 1;
      }
      if k < bound {
        RingDistinct(h, k, n, c);
      }
    }

    /** The iteration the queue evidently intends: N items from slot head,
        so every item once, from the front to the back. */
    method ItemsInOrder() returns (s: seq<T>)
      requires Valid()
      ensures s == Contents
    {
      var a, h, c, n := buffer, head, capacity, numberOfItems;
      ghost var C := Contents;
      Wrap(h, 0, c);
      s := [];
      var index := h;
      for k := 0 to n
        invariant index == Slot(h, k, c)
        invariant s == C[..k]
      {
        RingStep(h, k, c);
        s := s + [a[index]];
        index := (index + 1) % c;
      }
    }
  }

  /** A queue after one enqueue is full (capacity 1), and the iteration as
      written visits none of its one item. */
  method OneItemQueue() returns (size: int, visited: seq<int>, inOrder: seq<int>)
    ensures size == 1 && visited == [] && inOrder == [7]
  {
    var q := new Queue<int>();
    q.Enqueue(7);
    size := q.Size();
    visited := q.Items();
    inOrder := q.ItemsInOrder();
  }
}
