/** Linked stack, queue and deque. Each keeps its items in a chain of heap
    nodes from head, linked by next (and, in the deque, back by prev), and
    counts them in numberOfItems. The ghost field Nodes lists the chain from
    head on and Contents the items in those nodes, in the same order. */
module LinkedLists {
  import opened Wrappers

  /** A node of the stack and the queue. */
  class Node<T> {
    var data: T
    var next: Node?<T>

    constructor (data: T, next: Node?<T>)
      ensures this.data == data && this.next == next
    {
      this.data := data;
      this.next := next;
    }
  }

  /** A node of the deque. */
  class DNode<T> {
    var data: T
    var next: DNode?<T>
    var prev: DNode?<T>

    constructor (data: T, next: DNode?<T>, prev: DNode?<T>)
      ensures this.data == data && this.next == next && this.prev == prev
    {
      this.data := data;
      this.next := next;
      this.prev := prev;
    }
  }

  /** nodes is a null-terminated chain: each node's next is the node after
      it, the last node's next is null, and node i holds items[i]. */
  ghost predicate Chain<T>(nodes: seq<Node<T>>, items: seq<T>)
    reads nodes
  {
    && |nodes| == |items|
    && (forall i :: 0 <= i < |nodes| ==> nodes[i].data == items[i])
    && (forall i {:trigger nodes[i].next} :: 0 <= i < |nodes| - 1 ==> nodes[i].next == nodes[i + 1])
    && (nodes != [] ==> nodes[|nodes| - 1].next == null)
  }

  /** A chain also linked back: node 0's prev is null and every other
      node's prev is the node before it. */
  ghost predicate DChain<T>(nodes: seq<DNode<T>>, items: seq<T>)
    reads nodes
  {
    && |nodes| == |items|
    && (forall i :: 0 <= i < |nodes| ==> nodes[i].data == items[i])
    && (forall i {:trigger nodes[i].next} :: 0 <= i < |nodes| - 1 ==> nodes[i].next == nodes[i + 1])
    && (forall i {:trigger nodes[i].prev} :: 0 < i < |nodes| ==> nodes[i].prev == nodes[i - 1])
    && (nodes != [] ==> nodes[0].prev == null && nodes[|nodes| - 1].next == null)
  }

  /** Putting data[i] in front of data[i + 1..] + rest gives data[i..] + rest. */
  lemma ConsSlice<T>(data: seq<T>, i: int, rest: seq<T>)
    requires 0 <= i < |data|
    ensures [data[i]] + (data[i + 1..] + rest) == data[i..] + rest
  {
    assert data[i..] == [data[i]] + data[i + 1..];
  }

  /** A chain never meets itself: following next from two different
      positions, the one further on reaches null first. */
  lemma {:induction false} ChainDistinct<T>(nodes: seq<Node<T>>, items: seq<T>, i: int, j: int)
    requires Chain(nodes, items) && 0 <= i < j < |nodes|
    ensures nodes[i] != nodes[j]
    decreases |nodes| - j
  {
    if j < |nodes| - 1 {
      ChainDistinct(nodes, items, i + 1, j + 1);
      assert nodes[i].next == nodes[i + 1];
      assert nodes[j].next == nodes[j + 1];
    } else {
      assert nodes[i].next == nodes[i + 1];
    }
  }

  /** The same for a doubly linked chain, going back by prev. */
  lemma {:induction false} DChainDistinct<T>(nodes: seq<DNode<T>>, items: seq<T>, i: int, j: int)
    requires DChain(nodes, items) && 0 <= i < j < |nodes|
    ensures nodes[i] != nodes[j]
    decreases i
  {
    if i > 0 {
      DChainDistinct(nodes, items, i - 1, j - 1);
      assert nodes[i].prev == nodes[i - 1];
      assert nodes[j].prev == nodes[j - 1];
    } else {
      assert nodes[j].prev == nodes[j - 1];
    }
  }

  /** The last node of a chain is none of the others. */
  lemma LastDistinct<T>(nodes: seq<Node<T>>, items: seq<T>)
    requires Chain(nodes, items) && nodes != []
    ensures forall i :: 0 <= i < |nodes| - 1 ==> nodes[i] != nodes[|nodes| - 1]
  {
    forall i | 0 <= i < |nodes| - 1
      ensures nodes[i] != nodes[|nodes| - 1]
    {
      ChainDistinct(nodes, items, i, |nodes| - 1);
    }
  }

  // ---------------------------------------------------------------------
  // Stack

  class Stack<T> {
    var head: Node?<T>
    var numberOfItems: int
    /** The items from the top of the stack down. */
    ghost var Contents: seq<T>
    ghost var Nodes: seq<Node<T>>

    ghost predicate Valid()
      reads this, Nodes
    {
      && Chain(Nodes, Contents)
      && head == (if Nodes == [] then null else Nodes[0])
      && numberOfItems == |Contents|
    }

    /** An empty stack. */
    constructor ()
      ensures Valid() && Contents == []
    {
      head := null;
      numberOfItems := 0;
      Contents, Nodes := [], [];
    }

    /** The copy constructor: the items of other, gathered by iterating
        from its top, are pushed back from the bottom up, so the copy holds
        the same items in the same order. */
    constructor Copy(other: Stack<T>)
      requires other.Valid()
      ensures Valid() && Contents == other.Contents
    {
      head := null;
      numberOfItems := 0;
      Contents, Nodes := [], [];
      new;
      var data := other.Items();
      PushReversed(data, other.Size());
    }

    /** operator=: assigning a stack to itself changes nothing; otherwise
        this stack is emptied by popping and refilled as in Copy. */
    method Assign(other: Stack<T>)
      requires Valid() && other.Valid()
      modifies this
      ensures Valid() && Contents == old(other.Contents)
      ensures other.Valid() && other.Contents == old(other.Contents)
    {
      if this == other {
        return;
      }
      Clear();
      var data := other.Items();
      PushReversed(data, other.Size());
    }

    /** The emptying loop of operator=: pops until the stack is empty. */
    method Clear()
      requires Valid()
      modifies this
      ensures Valid() && Contents == []
    {
      while !IsEmpty()
        invariant Valid()
        decreases |Contents|
      {
        var _ := Pop();
      }
    }

    /** The copy loop: pushes data[n - 1] down to data[0]. */
    method PushReversed(data: seq<T>, n: int)
      requires Valid() && n == |data|
      modifies this
      ensures Valid() && Contents == data + old(Contents)
    {
      ghost var below := Contents;
      var i := n - 1;
      while i >= 0
        invariant -1 <= i < n
        invariant Valid() && Contents == data[i + 1..] + below
        decreases i
      {
        Push(data[i]);
        ConsSlice(data, i, below);
        i := i - 1;
      }
    }

    /** push: a new node holding the item becomes the head. */
    method Push(x: T)
      requires Valid()
      modifies this
      ensures Valid() && Contents == [x] + old(Contents)
    {
      var newHead := new Node(x, head);
      head := newHead;
      numberOfItems := numberOfItems + 1;
      Nodes := [newHead] + Nodes;
      Contents := [x] + Contents;
    }

    /** pop: the head node comes off and its item is returned; popping an
        empty stack is a logic error. */
    method Pop() returns (r: Result<T>)
      requires Valid()
      modifies this
      ensures Valid()
      ensures old(Contents) == [] ==> r == Failure(LogicError) && unchanged(this)
      ensures old(Contents) != [] ==> r == Success(old(Contents)[0]) && Contents == old(Contents)[1..]
    {
      if IsEmpty() {
        return Failure(LogicError);
      }
      var data := head.data;
      head := head.next;
      numberOfItems := numberOfItems - 1;
      Nodes := Nodes[1..];
      Contents := Contents[1..];
      return Success(data);
    }

    /** is_empty: the counter is 0, exactly when head is null (the test
        the counter-less stack uses). */
    function IsEmpty(): (r: bool)
      requires Valid()
      reads this, Nodes
      ensures r <==> Contents == []
      ensures r <==> head == null
    {
      numberOfItems == 0
    }

    /** size: the number of nodes reachable from head. */
    function Size(): (r: int)
      requires Valid()
      reads this, Nodes
      ensures r == |Contents| == |Nodes|
    {
      numberOfItems
    }

    /** The begin/end iteration: from head along next until null, so from
        the top of the stack to its bottom. */
    method Items() returns (s: seq<T>)
      requires Valid()
      ensures s == Contents
    {
      s := [];
      var node := head;
      ghost var k := 0;
      while node != null
        invariant 0 <= k <= |Nodes| && node == (if k < |Nodes| then Nodes[k] else null)
        invariant s == Contents[..k]
        decreases |Nodes| - k
      {
        s := s + [node.data];
        node := node.next;
        k := k + 1;
      }
    }
  }

  // ---------------------------------------------------------------------
  // Queue

  class Queue<T> {
    var head: Node?<T>
    var tail: Node?<T>
    var numberOfItems: int
    /** The items from the front of the queue to its back. */
    ghost var Contents: seq<T>
    ghost var Nodes: seq<Node<T>>

    ghost predicate Valid()
      reads this, Nodes
    {
      && Chain(Nodes, Contents)
      && head == (if Nodes == [] then null else Nodes[0])
      && tail == (if Nodes == [] then null else Nodes[|Nodes| - 1])
      && numberOfItems == |Contents|
    }

    /** An empty queue. */
    constructor ()
      ensures Valid() && Contents == []
    {
      head, tail := null, null;
      numberOfItems := 0;
      Contents, Nodes := [], [];
    }

    /** The copy constructor: every item of other, front to back, is
        pushed in turn. */
    constructor Copy(other: Queue<T>)
      requires other.Valid()
      ensures Valid() && Contents == other.Contents
    {
      head, tail := null, null;
      numberOfItems := 0;
      Contents, Nodes := [], [];
      new;
      var data := other.Items();
      PushAll(data);
    }

    /** operator=: assigning a queue to itself changes nothing; otherwise
        this queue is emptied by popping and refilled as in Copy. */
    method Assign(other: Queue<T>)
      requires Valid() && other.Valid()
      modifies this
      ensures Valid() && Contents == old(other.Contents)
      ensures other.Valid() && other.Contents == old(other.Contents)
    {
      if this == other {
        return;
      }
      label Start:
      Clear();
      assert unchanged@Start(other, other.Nodes);
      var data := other.Items();
      label Refill:
      PushAll(data);
      assert unchanged@Refill(other, other.Nodes);
    }

    /** The emptying loop of operator=: pops until the queue is empty. */
    method Clear()
      requires Valid()
      modifies this
      ensures Valid() && Contents == [] && tail == null
    {
      while !IsEmpty()
        invariant Valid()
        decreases |Contents|
      {
        var _ := Pop();
      }
    }

    /** The copy loop: pushes data[0], data[1], ... in turn. */
    method PushAll(data: seq<T>)
      requires Valid()
      modifies this, tail
      ensures Valid() && Contents == old(Contents) + data
      ensures tail == old(tail) || fresh(tail)
    {
      for i := 0 to |data|
        invariant Valid() && Contents == old(Contents) + data[..i]
        invariant tail == old(tail) || fresh(tail)
      {
        Push(data[i]);
        assert data[..i + 1] == data[..i] + [data[i]];
      }
    }

    /** push (enqueue): a new node holding the item is linked after tail
        and becomes the tail; on an empty queue it becomes the head too. */
    method Push(x: T)
      requires Valid()
      modifies this, tail
      ensures Valid() && Contents == old(Contents) + [x]
      ensures fresh(tail)
    {
      var newTail := new Node(x, null);
      if IsEmpty() {
        head := newTail;
      } else {
        LastDistinct(Nodes, Contents);
        tail.next := newTail;
      }
      numberOfItems := numberOfItems + 1;
      tail := newTail;
      Nodes := Nodes + [newTail];
      Contents := Contents + [x];
    }

    /** pop (dequeue): the head node comes off and its item is returned;
        when that empties the queue, tail is reset to null. Popping an
        empty queue is a logic error. */
    method Pop() returns (r: Result<T>)
      requires Valid()
      modifies this
      ensures Valid()
      ensures old(Contents) == [] ==> r == Failure(LogicError) && unchanged(this)
      ensures old(Contents) != [] ==> r == Success(old(Contents)[0]) && Contents == old(Contents)[1..]
      ensures tail == if Contents == [] then null else old(tail)
    {
      if IsEmpty() {
        return Failure(LogicError);
      }
      var data := head.data;
      head := head.next;
      numberOfItems := numberOfItems - 1;
      if IsEmptyCount() {
        tail := null;
      }
      Nodes := Nodes[1..];
      Contents := Contents[1..];
      return Success(data);
    }

    /** The counter test alone, for use while the ghost view is being
        brought up to date. */
    function IsEmptyCount(): bool
      reads this
    {
      numberOfItems == 0
    }

    /** is_empty: the counter is 0, exactly when head is null (the test
        the counter-less queue uses). */
    function IsEmpty(): (r: bool)
      requires Valid()
      reads this, Nodes
      ensures r <==> Contents == []
      ensures r <==> head == null
    {
      numberOfItems == 0
    }

    /** size: the number of nodes reachable from head. */
    function Size(): (r: int)
      requires Valid()
      reads this, Nodes
      ensures r == |Contents| == |Nodes|
    {
      numberOfItems
    }

    /** The begin/end iteration: from head along next until null, so from
        the front of the queue to its back. */
    method Items() returns (s: seq<T>)
      requires Valid()
      ensures s == Contents
    {
      s := [];
      var node := head;
      ghost var k := 0;
      while node != null
        invariant 0 <= k <= |Nodes| && node == (if k < |Nodes| then Nodes[k] else null)
        invariant s == Contents[..k]
        decreases |Nodes| - k
      {
        s := s + [node.data];
        node := node.next;
        k := k + 1;
      }
    }
  }

  // ---------------------------------------------------------------------
  // Deque

  class Deque<T> {
    var head: DNode?<T>
    var tail: DNode?<T>
    var numberOfItems: int
    /** The items from the front of the deque to its back. */
    ghost var Contents: seq<T>
    ghost var Nodes: seq<DNode<T>>

    ghost predicate Valid()
      reads this, Nodes
    {
      && DChain(Nodes, Contents)
      && head == (if Nodes == [] then null else Nodes[0])
      && tail == (if Nodes == [] then null else Nodes[|Nodes| - 1])
      && numberOfItems == |Contents|
    }

    /** No node of this deque is a node of other. */
    ghost predicate Disjoint(other: Deque<T>)
      reads this, other
    {
      forall j :: 0 <= j < |other.Nodes| ==> other.Nodes[j] !in Nodes
    }

    /** An empty deque. */
    constructor ()
      ensures Valid() && Contents == []
    {
      head, tail := null, null;
      numberOfItems := 0;
      Contents, Nodes := [], [];
    }

    /** The copy constructor: every item of other, front to back, is
        pushed at the back in turn. */
    constructor Copy(other: Deque<T>)
      requires other.Valid()
      ensures Valid() && Contents == other.Contents
    {
      head, tail := null, null;
      numberOfItems := 0;
      Contents, Nodes := [], [];
      new;
      var data := other.Items();
      PushAll(data);
    }

    /** operator=: assigning a deque to itself changes nothing; otherwise
        this deque is emptied from the back and refilled as in Copy. */
    method Assign(other: Deque<T>)
      requires Valid() && other.Valid()
      requires this == other || Disjoint(other)
      modifies this, Nodes
      ensures Valid() && Contents == old(other.Contents)
      ensures other.Valid() && other.Contents == old(other.Contents)
    {
      if this == other {
        return;
      }
      label Start:
      Clear();
      assert unchanged@Start(other, other.Nodes);
      var data := other.Items();
      label Refill:
      PushAll(data);
      assert unchanged@Refill(other, other.Nodes);
    }

    /** The emptying loop of operator=: pops from the back until the deque
        is empty. */
    method Clear()
      requires Valid()
      modifies this, Nodes
      ensures Valid() && Contents == []
    {
      while !IsEmpty()
        invariant Valid() && Nodes <= old(Nodes)
        decreases |Contents|
      {
        var _ := PopBack();
      }
    }

    /** The copy loop: pushes data[0], data[1], ... at the back of an empty
        deque. */
    method PushAll(data: seq<T>)
      requires Valid() && Contents == []
      modifies this
      ensures Valid() && Contents == data
    {
      for i := 0 to |data|
        invariant Valid() && Contents == data[..i]
        invariant tail == null || fresh(tail)
      {
        PushBack(data[i]);
      }
    }

    /** push_back: a new node holding the item, whose prev is the old
        tail, is linked after it and becomes the tail. */
    method PushBack(x: T)
      requires Valid()
      modifies this, tail
      ensures Valid() && Contents == old(Contents) + [x]
      ensures fresh(tail) && Nodes == old(Nodes) + [tail]
    {
      var newTail := new DNode(x, null, tail);
      if IsEmpty() {
        head := newTail;
      } else {
        forall i | 0 <= i < |Nodes| - 1
          ensures Nodes[i] != Nodes[|Nodes| - 1]
        {
          DChainDistinct(Nodes, Contents, i, |Nodes| - 1);
        }
        tail.next := newTail;
      }
      numberOfItems := numberOfItems + 1;
      tail := newTail;
      Nodes := Nodes + [newTail];
      Contents := Contents + [x];
    }

    /** push_front: a new node holding the item, whose next is the old
        head, is linked before it and becomes the head. */
    method PushFront(x: T)
      requires Valid()
      modifies this, head
      ensures Valid() && Contents == [x] + old(Contents)
      ensures fresh(head) && Nodes == [head] + old(Nodes)
    {
      var newHead := new DNode(x, head, null);
      if IsEmpty() {
        tail := newHead;
      } else {
        forall i | 0 < i < |Nodes|
          ensures Nodes[0] != Nodes[i]
        {
          DChainDistinct(Nodes, Contents, 0, i);
        }
        head.prev := newHead;
      }
      numberOfItems := numberOfItems + 1;
      head := newHead;
      Nodes := [newHead] + Nodes;
      Contents := [x] + Contents;
    }

    /** pop_back: the tail node comes off and its item is returned; the
        node before it becomes the tail, with next null, or, when the deque
        empties, head is reset to null. Popping an empty deque is a logic
        error. */
    method PopBack() returns (r: Result<T>)
      requires Valid()
      modifies this, Nodes
      ensures Valid()
      ensures old(Contents) == [] ==> r == Failure(LogicError) && unchanged(this)
      ensures old(Contents) != [] ==>
        && r == Success(old(Contents)[|old(Contents)| - 1])
        && Contents == old(Contents)[..|old(Contents)| - 1]
        && Nodes == old(Nodes)[..|old(Nodes)| - 1]
      ensures Contents == [] ==> head == null && tail == null
    {
      if IsEmpty() {
        return Failure(LogicError);
      }
      var data := tail.data;
      ghost var m := |Nodes| - 1;
      tail := tail.prev;
      numberOfItems := numberOfItems - 1;
      if numberOfItems == 0 {
        head := null;
      } else {
        forall i | 0 <= i < m - 1
          ensures Nodes[i] != Nodes[m - 1]
        {
          DChainDistinct(Nodes, Contents, i, m - 1);
        }
        tail.next := null;
      }
      Nodes := Nodes[..m];
      Contents := Contents[..m];
      return Success(data);
    }

    /** pop_front: the head node comes off and its item is returned; the
        node after it becomes the head, with prev null, or, when the deque
        empties, tail is reset to null. Popping an empty deque is a logic
        error. */
    method PopFront() returns (r: Result<T>)
      requires Valid()
      modifies this, Nodes
      ensures Valid()
      ensures old(Contents) == [] ==> r == Failure(LogicError) && unchanged(this)
      ensures old(Contents) != [] ==>
        && r == Success(old(Contents)[0])
        && Contents == old(Contents)[1..]
        && Nodes == old(Nodes)[1..]
      ensures Contents == [] ==> head == null && tail == null
    {
      if IsEmpty() {
        return Failure(LogicError);
      }
      var data := head.data;
      head := head.next;
      numberOfItems := numberOfItems - 1;
      if numberOfItems == 0 {
        tail := null;
      } else {
        forall i | 1 < i < |Nodes|
          ensures Nodes[1] != Nodes[i]
        {
          DChainDistinct(Nodes, Contents, 1, i);
        }
        head.prev := null;
      }
      Nodes := Nodes[1..];
      Contents := Contents[1..];
      return Success(data);
    }

    /** is_empty: whether the counter is 0. */
    function IsEmpty(): (r: bool)
      requires Valid()
      reads this, Nodes
      ensures r <==> Contents == []
      ensures r <==> head == null
    {
      numberOfItems == 0
    }

    /** size: the number of nodes reachable from head. */
    function Size(): (r: int)
      requires Valid()
      reads this, Nodes
      ensures r == |Contents| == |Nodes|
    {
      numberOfItems
    }

    /** The begin/end iteration: from head along next until null, so from
        the front of the deque to its back. */
    method Items() returns (s: seq<T>)
      requires Valid()
      ensures s == Contents
    {
      s := [];
      var node := head;
      ghost var k := 0;
      while node != null
        invariant 0 <= k <= |Nodes| && node == (if k < |Nodes| then Nodes[k] else null)
        invariant s == Contents[..k]
        decreases |Nodes| - k
      {
        s := s + [node.data];
        node := node.next;
        k := k + 1;
      }
    }
  }

  // ---------------------------------------------------------------------
  // The queue exercised by the program's entry point

  /** to_string of a single decimal digit. */
  function Digit(i: int): (r: string)
    requires 0 <= i < 10
    ensures |r| == 1 && '0' <= r[0] <= '9'
  {
    [('0' as int + i) as char]
  }

  /** prefix + to_string(k) for k = 0, 1, ..., n - 1. */
  function Numbered(prefix: string, n: int): (r: seq<string>)
    requires 0 <= n <= 10
    ensures |r| == n
    ensures forall k :: 0 <= k < n ==> r[k] == prefix + Digit(k)
  {
    if n == 0 then [] else Numbered(prefix, n - 1) + [prefix + Digit(n - 1)]
  }

  /** The items left after the scenario's enqueues and dequeues. */
  lemma ScenarioItems()
    ensures Numbered("", 5)[2..] + Numbered("2nd ", 3) == ["2", "3", "4", "2nd 0", "2nd 1", "2nd 2"]
  {
    var a, b := Numbered("", 5), Numbered("2nd ", 3);
    assert a[2] == "2" && a[3] == "3" && a[4] == "4";
    assert b[0] == "2nd 0" && b[1] == "2nd 1" && b[2] == "2nd 2";
  }

  /** Enqueue "0" to "4", dequeue twice, enqueue "2nd 0" to "2nd 2", then
      iterate and drain: both see "2", "3", "4", "2nd 0", "2nd 1", "2nd 2". */
  method DrainScenario() returns (visited: seq<string>, drained: seq<string>)
    ensures visited == ["2", "3", "4", "2nd 0", "2nd 1", "2nd 2"]
    ensures drained == visited
  {
    var queue := new Queue<string>();
    queue.PushAll(Numbered("", 5));
    for i := 0 to 2
      invariant queue.Valid() && queue.Contents == Numbered("", 5)[i..]
      invariant queue.tail == null || fresh(queue.tail)
    {
      var _ := queue.Pop();
    }
    queue.PushAll(Numbered("2nd ", 3));
    visited := queue.Items();
    ScenarioItems();
    drained := Drain(queue);
  }

  /** Dequeue until the queue is empty: the items come out front first. */
  method Drain<T>(queue: Queue<T>) returns (drained: seq<T>)
    requires queue.Valid()
    modifies queue
    ensures queue.Valid() && queue.Contents == [] && drained == old(queue.Contents)
  {
    drained := [];
    while !queue.IsEmpty()
      invariant queue.Valid() && drained + queue.Contents == old(queue.Contents)
      decreases |queue.Contents|
    {
      var r := queue.Pop();
      drained := drained + [r.value];
    }
  }
}
