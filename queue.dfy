/** The FIFO queue of queue/src/queue.c: a singly linked chain from `head`
    along `next` to `tail`, with a length counter. Items join at the tail
    and leave at the head.

    The C functions take a possibly NULL queue pointer; here they are
    module-level methods taking a `Queue?<T>`, and a null handle gives the
    same failure result as in C. */
module Queues {
  import opened Wrappers

  /** A queue node: its item and the node behind it. */
  class QueueNode<T> {
    var next: QueueNode?<T>
    const data: T

    /** A node as `enqueue` sets it up: carrying `data`, with nothing behind
        it. */
    constructor (data: T)
      ensures this.next == null && this.data == data
    {
      this.next := null;
      this.data := data;
    }
  }

  /** The items carried by a sequence of nodes, in the same order. */
  function Data<T>(c: seq<QueueNode<T>>): seq<T> {
    seq(|c|, i requires 0 <= i < |c| => c[i].data)
  }

  /** `c` lists, head to tail, the nodes reached from `c[0]` along `next`,
      and the last one ends the chain. */
  ghost predicate Linked<T>(c: seq<QueueNode<T>>)
    reads c
  {
    && (forall i {:trigger c[i].next} :: 0 <= i < |c| - 1 ==> c[i].next == c[i + 1])
    && (c != [] ==> c[|c| - 1].next == null)
  }

  /** In a linked chain no earlier node is the last one: each earlier node
      has a node behind it, and the last has none. */
  lemma LastOnlyOnce<T>(c: seq<QueueNode<T>>, i: nat)
    requires Linked(c) && i < |c| - 1
    ensures c[i] != c[|c| - 1]
  {
    assert c[i].next == c[i + 1];
  }

  class Queue<T> {
    var head: QueueNode?<T>
    var tail: QueueNode?<T>
    var length: nat
    /** Whether the caller supplied a `destroyData` callback. */
    const hasDestroyData: bool
    /** The queue's nodes, head to tail. */
    ghost var Nodes: seq<QueueNode<T>>

    /** The chain runs from `head` to `tail` and `length` counts its nodes;
        so `head`, `tail` and `length` are null or zero together. */
    ghost predicate Valid()
      reads this, Nodes
      ensures Valid() ==> (head == null <==> tail == null) && (head == null <==> length == 0)
    {
      && Linked(Nodes)
      && length == |Nodes|
      && head == (if Nodes == [] then null else Nodes[0])
      && tail == (if Nodes == [] then null else Nodes[|Nodes| - 1])
    }

    /** The items of the queue, head (index 0, next to leave) to tail. */
    ghost function Contents(): seq<T>
      reads this
    {
      Data(Nodes)
    }

    /** createQueue: an empty queue. */
    constructor (hasDestroyData: bool)
      ensures Valid() && Nodes == [] && Contents() == []
      ensures head == null && tail == null && length == 0
      ensures this.hasDestroyData == hasDestroyData
    {
      this.hasDestroyData := hasDestroyData;
      head, tail := null, null;
      length := 0;
      Nodes := [];
    }
  }

  /** The objects an operation on `queue` may change. */
  ghost function Footprint<T>(queue: Queue?<T>): set<object>
    reads queue
  {
    if queue == null then {} else {queue} + set n: object | n in queue.Nodes
  }

  /** enqueue: appends `data` at the tail. Returns 0, changing nothing, for
      a NULL queue or when no node can be allocated (`allocationFails`);
      otherwise returns 1, and the new node is the tail, and also the head
      when the queue was empty. */
  method Enqueue<T>(queue: Queue?<T>, data: T, allocationFails: bool) returns (r: int)
    requires queue != null ==> queue.Valid()
    modifies Footprint(queue)
    ensures queue == null ==> r == 0
    ensures queue != null && allocationFails ==> r == 0 && unchanged(queue) && queue.Valid()
    ensures queue != null && !allocationFails ==>
      && r == 1 && queue.Valid()
      && queue.Contents() == old(queue.Contents()) + [data]
      && queue.length == old(queue.length) + 1
      && queue.Nodes == old(queue.Nodes) + [queue.tail] && fresh(queue.tail)
      && queue.head == (if old(queue.length) == 0 then queue.tail else old(queue.head))
  {
    if queue == null {
      return 0;
    }
    if allocationFails {
      return 0;
    }
    var node := new QueueNode(data);
    queue.length := queue.length + 1;
    if queue.tail == null {
      queue.tail := node;
      queue.head := node;
      queue.Nodes := [node];
      return 1;
    }
    ghost var s := queue.Nodes;
    forall i | 0 <= i < |s| - 1
      ensures s[i] != queue.tail
    {
      LastOnlyOnce(s, i);
    }
    queue.tail.next := node;
    queue.tail := node;
    queue.Nodes := s + [node];
    // Only the old tail's `next` was written.
    forall i {:trigger s[i].next} | 0 <= i < |s| - 1
      ensures s[i].next == s[i + 1]
    {
    }
    assert Data(queue.Nodes) == Data(s) + [data];
    return 1;
  }

  /** dequeue: removes the head item and returns it; None (NULL in C) for a
      NULL or empty queue, which is left as it was. Removing the last item
      clears `tail` as well as `head`. */
  method Dequeue<T>(queue: Queue?<T>) returns (r: Option<T>)
    requires queue != null ==> queue.Valid()
    modifies queue
    ensures queue == null ==> r == None
    ensures queue != null ==> queue.Valid()
    ensures queue != null && old(queue.length) == 0 ==> r == None && unchanged(queue)
    ensures queue != null && old(queue.length) > 0 ==>
      && r == Some(old(queue.Contents())[0])
      && queue.Contents() == old(queue.Contents())[1..]
      && queue.Nodes == old(queue.Nodes)[1..]
      && queue.length == old(queue.length) - 1
      && queue.head == old(queue.head.next)
      && queue.tail == (if queue.length == 0 then null else old(queue.tail))
  {
    if queue == null {
      return None;
    }
    if queue.head == null {
      return None;
    }
    queue.length := queue.length - 1;
    var data := queue.head.data;
    var oldHead := queue.head;
    queue.head := oldHead.next;
    if queue.head == null {
      queue.tail := null;
    }
    queue.Nodes := queue.Nodes[1..];
    assert Data(queue.Nodes) == Data(old(queue.Nodes))[1..];
    return Some(data);
  }

  /** destroyQueue: walks the queue head to tail and hands every item to
      the caller's `destroyData` callback, skipping the calls when there is
      none; `destroyed` lists those calls in order. Returns 0 for a NULL
      queue, 1 otherwise. */
  method Destroy<T>(queue: Queue?<T>) returns (r: int, destroyed: seq<T>)
    requires queue != null ==> queue.Valid()
    ensures queue == null ==> r == 0 && destroyed == []
    ensures queue != null ==> r == 1 && destroyed == (if queue.hasDestroyData then queue.Contents() else [])
  {
    if queue == null {
      return 0, [];
    }
    var node := queue.head;
    ghost var visited := 0;
    destroyed := [];
    while node != null
      invariant visited <= queue.length
      invariant node == if visited < queue.length then queue.Nodes[visited] else null
      invariant destroyed == if queue.hasDestroyData then queue.Contents()[..visited] else []
      decreases queue.length - visited
    {
      if queue.hasDestroyData {
        destroyed := destroyed + [node.data];
      }
      node := node.next;
      visited := visited + 1;
    }
    return 1, destroyed;
  }

  /** First in, first out: enqueueing an item and then dequeueing returns
      the item at the front of the queue with the new one added, and leaves
      the rest. On an empty queue that is the item just enqueued, and the
      queue is empty again, with `head` and `tail` null, ready for reuse. */
  method EnqueueThenDequeue<T>(queue: Queue<T>, data: T) returns (r: Option<T>)
    requires queue.Valid()
    modifies Footprint(queue)
    ensures queue.Valid()
    ensures r == Some((old(queue.Contents()) + [data])[0])
    ensures queue.Contents() == (old(queue.Contents()) + [data])[1..]
    ensures old(queue.length) == 0 ==> r == Some(data) && queue.head == null && queue.tail == null
  {
    var ok := Enqueue(queue, data, false);
    r := Dequeue(queue);
  }
}
