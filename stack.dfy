/** The LIFO stack of stack/src/stack.c: a singly linked chain from `top`
    along `next`, with a size counter.

    A node's links are written only when it is created, so `next` is a
    constant here. The C functions take a possibly NULL stack pointer; here
    they are module-level methods taking a `Stack?<T>`, and a null handle
    gives the same failure result as in C. */
module Stacks {
  import opened Wrappers

  /** A stack node: its item and the node below it. */
  class StackNode<T> {
    const next: StackNode?<T>
    const data: T

    constructor (next: StackNode?<T>, data: T)
      ensures this.next == next && this.data == data
    {
      this.next := next;
      this.data := data;
    }
  }

  /** The items carried by a sequence of nodes, in the same order. */
  function Data<T>(c: seq<StackNode<T>>): seq<T> {
    seq(|c|, i requires 0 <= i < |c| => c[i].data)
  }

  /** `c` lists, top to bottom, the nodes reached from `c[0]` along `next`,
      and the bottom one ends the chain. */
  predicate Linked<T>(c: seq<StackNode<T>>) {
    && (forall i :: 0 <= i < |c| - 1 ==> c[i].next == c[i + 1])
    && (c != [] ==> c[|c| - 1].next == null)
  }

  class Stack<T> {
    var top: StackNode?<T>
    var size: nat
    /** The stack's nodes, top to bottom. */
    ghost var Nodes: seq<StackNode<T>>

    /** The chain starts at `top` and `size` counts its nodes; so `top` is
        null exactly when `size` is 0. */
    ghost predicate Valid()
      reads this
      ensures Valid() ==> (top == null <==> size == 0)
    {
      && Linked(Nodes)
      && size == |Nodes|
      && top == (if Nodes == [] then null else Nodes[0])
    }

    /** The items of the stack, top (index 0) to bottom. */
    ghost function Contents(): seq<T>
      reads this
    {
      Data(Nodes)
    }

    /** createStack: an empty stack. */
    constructor ()
      ensures Valid() && Contents() == [] && top == null && size == 0
    {
      top := null;
      size := 0;
      Nodes := [];
    }
  }

  /** push: puts `data` on top. Returns 0 for a NULL stack, 1 otherwise. */
  method Push<T>(stack: Stack?<T>, data: T) returns (r: int)
    requires stack != null ==> stack.Valid()
    modifies stack
    ensures stack == null ==> r == 0
    ensures stack != null ==> && r == 1 && stack.Valid()
                              && stack.Contents() == [data] + old(stack.Contents())
                              && stack.size == old(stack.size) + 1
                              && stack.top != null && stack.top.next == old(stack.top)
  {
    if stack == null {
      return 0;
    }
    var oldTop := stack.top;
    var node := new StackNode(oldTop, data);
    stack.top := node;
    stack.size := stack.size + 1;
    stack.Nodes := [node] + stack.Nodes;
    assert Data(stack.Nodes) == [data] + Data(old(stack.Nodes));
    return 1;
  }

  /** pop: removes the top item and returns it; None (NULL in C) for a NULL
      or empty stack, which is left as it was. */
  method Pop<T>(stack: Stack?<T>) returns (r: Option<T>)
    requires stack != null ==> stack.Valid()
    modifies stack
    ensures stack == null ==> r == None
    ensures stack != null ==> stack.Valid()
    ensures stack != null && old(stack.Contents()) == [] ==>
              r == None && stack.Contents() == [] && stack.size == 0 && stack.top == null
    ensures stack != null && old(stack.Contents()) != [] ==>
              && r == Some(old(stack.Contents())[0])
              && stack.Contents() == old(stack.Contents())[1..]
              && stack.size == old(stack.size) - 1
              && stack.top == old(stack.top).next
  {
    if stack == null {
      return None;
    }
    if stack.top == null {
      return None;
    }
    var node := stack.top;
    var data := node.data;
    stack.top := node.next;
    stack.size := stack.size - 1;
    stack.Nodes := stack.Nodes[1..];
    assert Data(stack.Nodes) == Data(old(stack.Nodes))[1..];
    return Some(data);
  }

  /** destroyStack: hands every item, top to bottom, to the caller's
      `destroyData` callback; `destroyed` lists those calls in order.
      Returns 0 for a NULL stack, 1 otherwise. */
  method Destroy<T>(stack: Stack?<T>) returns (r: int, destroyed: seq<T>)
    requires stack != null ==> stack.Valid()
    ensures stack == null ==> r == 0 && destroyed == []
    ensures stack != null ==> r == 1 && destroyed == stack.Contents()
  {
    if stack == null {
      return 0, [];
    }
    var node := stack.top;
    destroyed := [];
    while node != null
      invariant |destroyed| <= stack.size
      invariant destroyed == stack.Contents()[..|destroyed|]
      invariant node == if |destroyed| < stack.size then stack.Nodes[|destroyed|] else null
      decreases stack.size - |destroyed|
    {
      destroyed := destroyed + [node.data];
      node := node.next;
    }
    return 1, destroyed;
  }

  /** Pushing an item and popping it again returns that item and restores
      the stack's items and size. */
  method PushThenPop<T>(stack: Stack<T>, data: T) returns (r: Option<T>)
    requires stack.Valid()
    modifies stack
    ensures r == Some(data)
    ensures stack.Valid() && stack.Contents() == old(stack.Contents())
    ensures stack.size == old(stack.size) && stack.top == old(stack.top)
  {
    var ok := Push(stack, data);
    r := Pop(stack);
  }
}
