/** The doubly linked list of linkedList/src/linkedList.c.

    Link direction follows the code: a node's `prev` points toward the TAIL
    and its `next` toward the HEAD. Walking from `head` along `prev` and from
    `tail` along `next` visits the same nodes in opposite orders.

    The C functions take a possibly NULL list pointer; here they are
    module-level methods taking a `LinkedList?<T>`, and a null handle gives
    the same failure result as in C. */
module LinkedLists {
  import opened Wrappers
  import opened Ordering
  import opened MergeSortSpec

  /** A list node. The item a node carries never changes after creation. */
  class Node<T> {
    var next: Node?<T>  // neighbour toward the head
    var prev: Node?<T>  // neighbour toward the tail
    const data: T

    constructor (next: Node?<T>, prev: Node?<T>, data: T)
      ensures this.next == next && this.prev == prev && this.data == data
    {
      this.next := next;
      this.prev := prev;
      this.data := data;
    }
  }

  /** The items carried by a sequence of nodes, in the same order. */
  function Data<T>(c: seq<Node<T>>): seq<T> {
    seq(|c|, i requires 0 <= i < |c| => c[i].data)
  }

  /** The first node of a sequence, or null when it is empty. */
  function First<T>(c: seq<Node<T>>): Node?<T> {
    if c == [] then null else c[0]
  }

  /** The last node of a sequence, or null when it is empty. */
  function Last<T>(c: seq<Node<T>>): Node?<T> {
    if c == [] then null else c[|c| - 1]
  }

  /** Placing a node at position k places its item at position k. */
  lemma DataSplice<T>(s: seq<Node<T>>, k: nat, n: Node<T>)
    requires k <= |s|
    ensures Data(s[..k] + [n] + s[k..]) == Data(s)[..k] + [n.data] + Data(s)[k..]
  {
    assert |Data(s[..k] + [n] + s[k..])| == |s| + 1;
    forall i | 0 <= i <= |s|
      ensures Data(s[..k] + [n] + s[k..])[i] == (Data(s)[..k] + [n.data] + Data(s)[k..])[i]
    {
      if i > k {
        assert (s[..k] + [n] + s[k..])[i] == s[i - 1];
      }
    }
  }

  /** Dropping the node at position k drops its item. */
  lemma DataRemove<T>(s: seq<Node<T>>, k: nat)
    requires k < |s|
    ensures Data(s[..k] + s[k + 1..]) == Data(s)[..k] + Data(s)[k + 1..]
  {
    var t, d := s[..k] + s[k + 1..], Data(s)[..k] + Data(s)[k + 1..];
    assert |Data(t)| == |d|;
    forall i | 0 <= i < |d|
      ensures Data(t)[i] == d[i]
    {
      if i >= k {
        assert t[i] == s[i + 1];
      }
    }
  }

  ghost predicate Distinct<T>(c: seq<Node<T>>) {
    forall i, j :: 0 <= i < |c| && 0 <= j < |c| && i != j ==> c[i] != c[j]
  }

  /** `c` lists, head to tail, the nodes of a well-linked chain: each node's
      `prev` is the next one in `c`, each node's `next` the one before, and
      the two ends point to null. */
  ghost predicate Chain<T>(c: seq<Node<T>>)
    reads c
  {
    && Distinct(c)
    && (c != [] ==> c[0].next == null && c[|c| - 1].prev == null)
    && (forall i {:trigger c[i].prev} :: 0 <= i < |c| - 1 ==> c[i].prev == c[i + 1])
    && (forall i {:trigger c[i].next} :: 0 < i < |c| ==> c[i].next == c[i - 1])
  }

  class LinkedList<T> {
    var head: Node?<T>
    var tail: Node?<T>
    var length: nat
    /** Cached flag: true promises that the items are non-decreasing. */
    var sorted: bool
    /** The caller's `compareData` callback. */
    const compare: (T, T) -> int
    /** The list's nodes, head to tail. */
    ghost var Nodes: seq<Node<T>>

    /** The link, length and sortedness invariant every operation keeps. */
    ghost predicate Valid()
      reads this, Nodes
      ensures Valid() ==> (head == null <==> length == 0) && (tail == null <==> length == 0)
    {
      && Chain(Nodes)
      && length == |Nodes|
      && head == First(Nodes)
      && tail == Last(Nodes)
      && (sorted ==> Sorted(compare, Data(Nodes)))
    }

    /** The items of the list, head (index 0) to tail. */
    ghost function Contents(): seq<T>
      reads this
    {
      Data(Nodes)
    }

    /** createLinkedList: an empty list, marked sorted. */
    constructor (compare: (T, T) -> int)
      ensures Valid() && Nodes == [] && length == 0
      ensures head == null && tail == null && sorted
      ensures this.compare == compare
    {
      this.compare := compare;
      head, tail := null, null;
      length := 0;
      sorted := true;
      Nodes := [];
    }
  }

  /** The links of `s` after the node at position k was bypassed: the two
      neighbours of position k point at each other (or at null at an end),
      and every other link is as in a chain. Then the other nodes form a
      chain. */
  lemma UnlinkedChain<T>(s: seq<Node<T>>, k: nat)
    requires Distinct(s) && k < |s|
    requires forall i {:trigger s[i].prev} :: 0 <= i < |s| - 1 && i != k - 1 && i != k ==> s[i].prev == s[i + 1]
    requires forall i {:trigger s[i].next} :: 0 < i < |s| && i != k && i != k + 1 ==> s[i].next == s[i - 1]
    requires 0 < k ==> s[k - 1].prev == (if k == |s| - 1 then null else s[k + 1])
    requires k < |s| - 1 ==> s[k + 1].next == (if k == 0 then null else s[k - 1])
    requires k != 0 ==> s[0].next == null
    requires k != |s| - 1 ==> s[|s| - 1].prev == null
    ensures Chain(s[..k] + s[k + 1..])
  {
    var t := s[..k] + s[k + 1..];
    assert |t| == |s| - 1;
    assert forall i :: 0 <= i < k ==> t[i] == s[i];
    assert forall i :: k <= i < |t| ==> t[i] == s[i + 1];
    assert Distinct(t) by {
      forall i, j | 0 <= i < j < |t|
        ensures t[i] != t[j]
      {
        var i', j' := if i < k then i else i + 1, if j < k then j else j + 1;
        assert t[i] == s[i'] && t[j] == s[j'] && i' < j';
      }
    }
    forall i | 0 <= i < |t| - 1
      ensures t[i].prev == t[i + 1]
    {
      if i >= k {
        assert t[i] == s[i + 1] && t[i + 1] == s[i + 2];
      }
    }
    forall i | 0 < i < |t|
      ensures t[i].next == t[i - 1]
    {
      if i > k {
        assert t[i] == s[i + 1] && t[i - 1] == s[i];
      }
    }
  }

  /** The links of `s` plus a node `n` placed at position k: the
      neighbours on either side point at `n`, `n` points at them (or at null
      at an end), and every other link is as in a chain. Then the nodes form
      a chain with `n` at k. */
  lemma SplicedChain<T>(s: seq<Node<T>>, k: nat, n: Node<T>)
    requires Distinct(s) && k <= |s| && n !in s
    requires forall i {:trigger s[i].prev} :: 0 <= i < |s| - 1 && i != k - 1 ==> s[i].prev == s[i + 1]
    requires forall i {:trigger s[i].next} :: 0 < i < |s| && i != k ==> s[i].next == s[i - 1]
    requires n.next == (if k == 0 then null else s[k - 1])
    requires n.prev == (if k == |s| then null else s[k])
    requires 0 < k ==> s[k - 1].prev == n && s[0].next == null
    requires k < |s| ==> s[k].next == n && s[|s| - 1].prev == null
    ensures Chain(s[..k] + [n] + s[k..])
  {
    var t := s[..k] + [n] + s[k..];
    assert |t| == |s| + 1;
    assert forall i :: 0 <= i < k ==> t[i] == s[i];
    assert t[k] == n;
    assert forall i :: k < i < |t| ==> t[i] == s[i - 1];
    assert Distinct(t) by {
      forall i, j | 0 <= i < j < |t|
        ensures t[i] != t[j]
      {
        if j != k && i != k {
          var i', j' := if i < k then i else i - 1, if j < k then j else j - 1;
          assert t[i] == s[i'] && t[j] == s[j'] && i' < j';
        } else if i == k {
          assert t[j] == s[j - 1];
        } else {
          assert t[i] == s[i];
        }
      }
    }
    forall i | 0 <= i < |t| - 1
      ensures t[i].prev == t[i + 1]
    {
      if i > k {
        assert t[i] == s[i - 1] && t[i + 1] == s[i];
      }
    }
    forall i | 0 < i < |t|
      ensures t[i].next == t[i - 1]
    {
      if i > k + 1 {
        assert t[i] == s[i - 1] && t[i - 1] == s[i - 2];
      }
    }
  }

  /** The objects an operation on `list` may change. */
  ghost function Footprint<T>(list: LinkedList?<T>): set<object>
    reads list
  {
    if list == null then {} else {list} + Elements(list.Nodes)
  }

  /** The nodes of a sequence, as a frame. */
  ghost function Elements<T>(c: seq<Node<T>>): set<object> {
    set n: object | n in c
  }

  /** addToFrontLL */
  method AddToFront<T>(list: LinkedList?<T>, data: T) returns (r: int)
    requires list != null ==> list.Valid()
    modifies Footprint(list)
    ensures list == null ==> r == 0
    ensures list != null ==> r == 1 && list.Valid()
    ensures list != null ==> list.Nodes == [First(list.Nodes)] + old(list.Nodes) && fresh(First(list.Nodes))
    ensures list != null ==> list.Contents() == [data] + old(list.Contents())
    ensures list != null ==> list.sorted == (if list.length > 1 then false else old(list.sorted))
  {
    if list == null {
      return 0;
    }
    ghost var s := list.Nodes;
    var node := new Node(null, list.head, data);
    if list.head != null {
      list.head.next := node;
    }
    list.head := node;
    if list.tail == null {
      list.tail := node;
    }
    list.length := list.length + 1;
    if list.length > 1 {
      list.sorted := false;
    }
    list.Nodes := [node] + list.Nodes;
    forall i {:trigger s[i].prev} | 0 <= i < |s| - 1
      ensures s[i].prev == s[i + 1]
    {
      assert old(s[i].prev) == s[i + 1];
    }
    forall i {:trigger s[i].next} | 0 < i < |s|
      ensures s[i].next == s[i - 1]
    {
      assert old(s[i].next) == s[i - 1];
    }
    assert s[..0] + [node] + s[0..] == list.Nodes;
    SplicedChain(s, 0, node);
    DataSplice(s, 0, node);
    return 1;
  }

  /** addToBackLL */
  method AddToBack<T>(list: LinkedList?<T>, data: T) returns (r: int)
    requires list != null ==> list.Valid()
    modifies Footprint(list)
    ensures list == null ==> r == 0
    ensures list != null ==> r == 1 && list.Valid()
    ensures list != null ==> list.Nodes == old(list.Nodes) + [Last(list.Nodes)] && fresh(Last(list.Nodes))
    ensures list != null ==> list.Contents() == old(list.Contents()) + [data]
    ensures list != null ==> list.sorted == (if list.length > 1 then false else old(list.sorted))
  {
    if list == null {
      return 0;
    }
    ghost var s := list.Nodes;
    var node := new Node(list.tail, null, data);
    if list.tail != null {
      list.tail.prev := node;
    }
    list.tail := node;
    if list.head == null {
      list.head := node;
    }
    list.length := list.length + 1;
    if list.length > 1 {
      list.sorted := false;
    }
    list.Nodes := list.Nodes + [node];
    forall i {:trigger s[i].prev} | 0 <= i < |s| - 1
      ensures s[i].prev == s[i + 1]
    {
      assert old(s[i].prev) == s[i + 1];
    }
    forall i {:trigger s[i].next} | 0 < i < |s|
      ensures s[i].next == s[i - 1]
    {
      assert old(s[i].next) == s[i - 1];
    }
    assert s[..|s|] + [node] + s[|s|..] == list.Nodes;
    SplicedChain(s, |s|, node);
    DataSplice(s, |s|, node);
    return 1;
  }

  /** insertAtIndexLL: valid positions are 0 through length; position 0
      delegates to AddToFront and position length to AddToBack. */
  method InsertAt<T>(list: LinkedList?<T>, data: T, index: int) returns (r: int)
    requires list != null ==> list.Valid()
    modifies Footprint(list)
    ensures list == null ==> r == 0
    ensures list != null ==> list.Valid()
    ensures list != null && (index < 0 || index > old(list.length)) ==>
      r == 0 && unchanged(list) && unchanged(list.Nodes)
    ensures list != null && 0 <= index <= old(list.length) ==>
      && r == 1
      && |list.Nodes| == |old(list.Nodes)| + 1
      && list.Nodes == old(list.Nodes)[..index] + [list.Nodes[index]] + old(list.Nodes)[index..]
      && fresh(list.Nodes[index])
      && list.Contents() == old(list.Contents())[..index] + [data] + old(list.Contents())[index..]
      && list.sorted == (if list.length > 1 then false else old(list.sorted))
  {
    if list == null {
      return 0;
    }
    if index > list.length || index < 0 {
      return 0;
    }
    var node := list.head;
    if index == 0 || list.head == null {
      r := AddToFront(list, data);
      assert old(list.Nodes)[..index] == [] && old(list.Nodes)[index..] == old(list.Nodes);
      return;
    } else if index == list.length {
      r := AddToBack(list, data);
      assert old(list.Nodes)[..index] == old(list.Nodes) && old(list.Nodes)[index..] == [];
      return;
    }
    for i := 1 to index
      invariant node == list.Nodes[i - 1]
    {
      node := node.prev;
    }
    LinkAfter(list, node, index, data);
    return 1;
  }

  /** The middle branch of insertAtIndexLL: links a new node carrying `data`
      behind `node`, the node at position k - 1, so on the tail side of it,
      and clears the sorted flag, since the list then has at least three
      items. */
  method LinkAfter<T>(list: LinkedList<T>, node: Node<T>, ghost k: nat, data: T)
    requires list.Valid() && 0 < k < |list.Nodes| && node == list.Nodes[k - 1]
    modifies Footprint(list)
    ensures list.Valid()
    ensures |list.Nodes| == |old(list.Nodes)| + 1
    ensures list.Nodes == old(list.Nodes)[..k] + [list.Nodes[k]] + old(list.Nodes)[k..]
    ensures fresh(list.Nodes[k])
    ensures list.Contents() == old(list.Contents())[..k] + [data] + old(list.Contents())[k..]
    ensures !list.sorted
  {
    ghost var s := list.Nodes;
    var newNode := new Node(node, node.prev, data);
    node.prev.next := newNode;
    node.prev := newNode;
    list.length := list.length + 1;
    if list.length > 1 {
      list.sorted := false;
    }
    list.Nodes := s[..k] + [newNode] + s[k..];
    forall i {:trigger s[i].prev} | 0 <= i < |s| - 1 && i != k - 1
      ensures s[i].prev == s[i + 1]
    {
      assert old(s[i].prev) == s[i + 1];
    }
    forall i {:trigger s[i].next} | 0 < i < |s| && i != k
      ensures s[i].next == s[i - 1]
    {
      assert old(s[i].next) == s[i - 1];
    }
    SplicedChain(s, k, newNode);
    DataSplice(s, k, newNode);
  }

  /** removeFromIndexLL: valid positions are 0 through length - 1; the
      removed item is handed back to the caller, not destroyed. */
  method RemoveAt<T>(list: LinkedList?<T>, index: int) returns (r: Option<T>)
    requires list != null ==> list.Valid()
    modifies Footprint(list)
    ensures list == null ==> r == None
    ensures list != null ==> list.Valid()
    ensures list != null && (index < 0 || index >= old(list.length)) ==>
      r == None && unchanged(list) && unchanged(list.Nodes)
    ensures list != null && 0 <= index < old(list.length) ==>
      && r == Some(old(list.Contents())[index])
      && list.Nodes == old(list.Nodes)[..index] + old(list.Nodes)[index + 1..]
      && list.Contents() == old(list.Contents())[..index] + old(list.Contents())[index + 1..]
      && list.length == old(list.length) - 1
      && list.sorted == (if list.length < 2 then true else old(list.sorted))
  {
    if list == null || index < 0 || index >= list.length {
      return None;
    }
    var node := list.head;
    for i := 0 to index
      invariant node == list.Nodes[i]
    {
      node := node.prev;
    }
    Unlink(list, node, index);
    var data := node.data;
    return Some(data);
  }

  /** The unlinking step of removeFromIndexLL: bypasses `node`, the node at
      position k, from both sides, moving `head` or `tail` when it is an end,
      and marks a list left with fewer than two items sorted. */
  method Unlink<T>(list: LinkedList<T>, node: Node<T>, ghost k: nat)
    requires list.Valid() && k < |list.Nodes| && node == list.Nodes[k]
    modifies Footprint(list)
    ensures list.Valid()
    ensures list.Nodes == old(list.Nodes)[..k] + old(list.Nodes)[k + 1..]
    ensures list.Contents() == old(list.Contents())[..k] + old(list.Contents())[k + 1..]
    ensures list.length == old(list.length) - 1
    ensures list.sorted == (if list.length < 2 then true else old(list.sorted))
  {
    ghost var s := list.Nodes;
    assert node.next == (if k == 0 then null else s[k - 1]);
    assert node.prev == (if k == |s| - 1 then null else s[k + 1]);
    if node.next != null {
      node.next.prev := node.prev;
    } else {
      list.head := node.prev;
    }
    if node.prev != null {
      node.prev.next := node.next;
    } else {
      list.tail := node.next;
    }
    list.length := list.length - 1;
    if list.length < 2 {
      list.sorted := true;
    }
    list.Nodes := s[..k] + s[k + 1..];
    forall i {:trigger s[i].prev} | 0 <= i < |s| - 1 && i != k - 1 && i != k
      ensures s[i].prev == s[i + 1]
    {
      assert old(s[i].prev) == s[i + 1];
    }
    forall i {:trigger s[i].next} | 0 < i < |s| && i != k && i != k + 1
      ensures s[i].next == s[i - 1]
    {
      assert old(s[i].next) == s[i - 1];
    }
    UnlinkedChain(s, k);
    DataRemove(s, k);
    if list.sorted && list.length >= 2 {
      SortedRemove(list.compare, Data(s), k);
    }
  }

  /** Inserting an item at a valid position and then removing the item at
      that position returns the item and restores the list's items and
      length. */
  method InsertThenRemove<T>(list: LinkedList<T>, data: T, index: int) returns (r: Option<T>)
    requires list.Valid() && 0 <= index <= list.length
    modifies Footprint(list)
    ensures list.Valid() && r == Some(data)
    ensures list.Contents() == old(list.Contents()) && list.length == old(list.length)
  {
    ghost var s := list.Contents();
    var ok := InsertAt(list, data, index);
    r := RemoveAt(list, index);
    assert (s[..index] + [data] + s[index..])[..index] == s[..index];
    assert (s[..index] + [data] + s[index..])[index + 1..] == s[index..];
    assert s[..index] + s[index..] == s;
  }

  /** getLL: the item at `index`, reached from the tail when `index` lies
      past the middle and from the head otherwise. */
  method Get<T>(list: LinkedList?<T>, index: int) returns (r: Option<T>)
    requires list != null ==> list.Valid()
    ensures r == if list != null && 0 <= index < list.length
                 then Some(list.Contents()[index]) else None
  {
    if list == null || index < 0 || index > list.length - 1 || list.head == null {
      return None;
    }
    var node: Node<T>;
    if index > list.length / 2 {
      node := list.tail;
      var i := list.length - 1;
      while i > index
        invariant index <= i < list.length
        invariant node == list.Nodes[i]
      {
        node := node.next;
        i := i - 1;
      }
    } else {
      node := list.head;
      for i := 0 to index
        invariant node == list.Nodes[i]
      {
        node := node.prev;
      }
    }
    return Some(node.data);
  }

  /** searchLL: the first position whose item the comparator, called as
      compare(needle, item), reports equal to `data`; -1 when there is none
      or the list is absent. */
  method Search<T>(list: LinkedList?<T>, data: T) returns (r: int)
    requires list != null ==> list.Valid()
    ensures list == null ==> r == -1
    ensures list != null ==> -1 <= r < list.length
    ensures list != null && r == -1 ==>
      forall i :: 0 <= i < list.length ==> list.compare(data, list.Contents()[i]) != 0
    ensures list != null && r >= 0 ==>
      && list.compare(data, list.Contents()[r]) == 0
      && forall i :: 0 <= i < r ==> list.compare(data, list.Contents()[i]) != 0
  {
    if list == null {
      return -1;
    }
    var count := 0;
    var node := list.head;
    while node != null
      invariant 0 <= count <= list.length
      invariant node == if count < list.length then list.Nodes[count] else null
      invariant forall i :: 0 <= i < count ==> list.compare(data, list.Contents()[i]) != 0
      decreases list.length - count
    {
      if list.compare(data, node.data) == 0 {
        return count;
      }
      node := node.prev;
      count := count + 1;
    }
    return -1;
  }

  /** insertSortedLL: refuses (-1) an absent list or one not flagged sorted;
      otherwise places `data` just before the first item that compares above
      it, so after any equal items, and returns that position. */
  method InsertSorted<T(!new)>(list: LinkedList?<T>, data: T) returns (r: int)
    requires list != null ==> list.Valid() && TotalPreorder(list.compare)
    modifies Footprint(list)
    ensures list == null ==> r == -1
    ensures list != null ==> list.Valid()
    ensures list != null && !old(list.sorted) ==>
      r == -1 && unchanged(list) && unchanged(list.Nodes)
    ensures list != null && old(list.sorted) ==>
      && 0 <= r <= old(list.length)
      && (forall i :: 0 <= i < r ==> list.compare(old(list.Contents())[i], data) <= 0)
      && (r < old(list.length) ==> list.compare(old(list.Contents())[r], data) > 0)
      && list.Contents() == old(list.Contents())[..r] + [data] + old(list.Contents())[r..]
      && |list.Nodes| == |old(list.Nodes)| + 1
      && list.Nodes == old(list.Nodes)[..r] + [list.Nodes[r]] + old(list.Nodes)[r..]
      && fresh(list.Nodes[r])
      && list.sorted
  {
    if list == null || !list.sorted {
      return -1;
    }
    var node := list.head;
    var index := 0;
    // The C loop returns from inside once it has linked the new node; here
    // the loop stops at that node and the linking follows it.
    while node != null
      invariant 0 <= index <= list.length
      invariant node == if index < list.length then list.Nodes[index] else null
      invariant forall i :: 0 <= i < index ==> list.compare(list.Contents()[i], data) <= 0
      decreases list.length - index
    {
      if list.compare(node.data, data) > 0 {
        break;
      }
      index := index + 1;
      node := node.prev;
    }
    ghost var s := list.Nodes;
    assert Data(s) == list.Contents();
    SortedInsert(list.compare, Data(s), data, index);
    if node == null {
      assert index == |s| && s[..index] == s && s[index..] == [];
      assert Data(s)[..index] == Data(s) && Data(s)[index..] == [];
      var ok := AddToBack(list, data);
      list.sorted := true;
      return index;
    }
    LinkBefore(list, node, index, data);
    return index;
  }

  /** The middle branch of insertSortedLL: links a new node carrying `data`
      in front of `node`, the node at position k, so on the head side of it.
      The caller vouches that the flag stays truthful. */
  method LinkBefore<T>(list: LinkedList<T>, node: Node<T>, ghost k: nat, data: T)
    requires list.Valid() && k < |list.Nodes| && node == list.Nodes[k]
    requires list.sorted ==> Sorted(list.compare, list.Contents()[..k] + [data] + list.Contents()[k..])
    modifies Footprint(list)
    ensures list.Valid()
    ensures |list.Nodes| == |old(list.Nodes)| + 1
    ensures list.Nodes == old(list.Nodes)[..k] + [list.Nodes[k]] + old(list.Nodes)[k..]
    ensures fresh(list.Nodes[k])
    ensures list.Contents() == old(list.Contents())[..k] + [data] + old(list.Contents())[k..]
    ensures list.sorted == old(list.sorted)
  {
    ghost var s := list.Nodes;
    var newNode := new Node(node.next, node, data);
    if node.next == null {
      list.head := newNode;
    } else {
      node.next.prev := newNode;
    }
    node.next := newNode;
    list.length := list.length + 1;
    list.Nodes := s[..k] + [newNode] + s[k..];
    forall i {:trigger s[i].prev} | 0 <= i < |s| - 1 && i != k - 1
      ensures s[i].prev == s[i + 1]
    {
      assert old(s[i].prev) == s[i + 1];
    }
    forall i {:trigger s[i].next} | 0 < i < |s| && i != k
      ensures s[i].next == s[i - 1]
    {
      assert old(s[i].next) == s[i - 1];
    }
    SplicedChain(s, k, newNode);
    DataSplice(s, k, newNode);
  }

  /** Two node sequences share no node. */
  ghost predicate Disjoint<T>(a: seq<Node<T>>, b: seq<Node<T>>) {
    forall i, j :: 0 <= i < |a| && 0 <= j < |b| ==> a[i] != b[j]
  }

  /** The links of `c` after `split` cut it between positions m - 1 and m:
      those two nodes now end their parts, and every other link is as in a
      chain. Then both parts are chains. */
  lemma ChainHalves<T>(c: seq<Node<T>>, m: nat)
    requires Distinct(c) && 0 < m < |c|
    requires forall i {:trigger c[i].prev} :: 0 <= i < |c| - 1 && i != m - 1 ==> c[i].prev == c[i + 1]
    requires forall i {:trigger c[i].next} :: 0 < i < |c| && i != m ==> c[i].next == c[i - 1]
    requires c[0].next == null && c[m - 1].prev == null
    requires c[m].next == null && c[|c| - 1].prev == null
    ensures Chain(c[..m]) && Chain(c[m..])
  {
    var front, back := c[..m], c[m..];
    assert forall i :: 0 <= i < m ==> front[i] == c[i];
    assert forall i :: 0 <= i < |back| ==> back[i] == c[m + i];
  }

  /** The items of the two parts of a cut sequence are the two parts of its
      items. */
  lemma DataCut<T>(c: seq<Node<T>>, m: nat)
    requires m <= |c|
    ensures Data(c[..m]) == Data(c)[..m] && Data(c[m..]) == Data(c)[m..]
  {
  }

  /** split: walks `half` one node and `full` two nodes at a time from the
      head of a chain of at least two nodes; when `full` cannot take two more
      steps, the chain is cut after `half`, so the first part keeps
      SplitPoint(|c|) nodes. Returns the head of the second part. */
  method SplitChain<T>(node: Node<T>, ghost c: seq<Node<T>>) returns (half: Node<T>)
    requires Chain(c) && |c| >= 2 && node == c[0]
    modifies c[SplitPoint(|c|) - 1], c[SplitPoint(|c|)]
    ensures half == c[SplitPoint(|c|)]
    ensures Chain(c[..SplitPoint(|c|)]) && Chain(c[SplitPoint(|c|)..])
  {
    half := node;
    var full := node;
    ghost var k := 0;
    while full.prev != null && full.prev.prev != null
      invariant 2 * k < |c| && half == c[k] && full == c[2 * k]
      decreases |c| - 2 * k
    {
      half := half.prev;
      full := full.prev.prev;
      k := k + 1;
    }
    ghost var m := k + 1;
    assert m == SplitPoint(|c|);
    half := half.prev;
    half.next.prev := null;
    half.next := null;
    forall i {:trigger c[i].prev} | 0 <= i < |c| - 1 && i != m - 1
      ensures c[i].prev == c[i + 1]
    {
      assert old(c[i].prev) == c[i + 1];
    }
    forall i {:trigger c[i].next} | 0 < i < |c| && i != m
      ensures c[i].next == c[i - 1]
    {
      assert old(c[i].next) == c[i - 1];
    }
    ChainHalves(c, m);
  }

  /** The nodes of ca[ia..] and cb[ib..] in the order `merge` links them:
      it takes the node of `ca` when `cb` is used up or when the item of
      `ca` compares strictly below the item of `cb`. */
  function MergeFrom<T>(cmp: (T, T) -> int, ca: seq<Node<T>>, cb: seq<Node<T>>, ia: nat, ib: nat): (r: seq<Node<T>>)
    requires ia <= |ca| && ib <= |cb|
    ensures |r| == |ca| - ia + |cb| - ib
    decreases |ca| - ia + |cb| - ib
  {
    if ia == |ca| && ib == |cb| then []
    else if ib == |cb| || (ia < |ca| && cmp(ca[ia].data, cb[ib].data) < 0) then
      [ca[ia]] + MergeFrom(cmp, ca, cb, ia + 1, ib)
    else
      [cb[ib]] + MergeFrom(cmp, ca, cb, ia, ib + 1)
  }

  /** The items of a concatenation are the concatenated items. */
  lemma DataAppend<T>(s: seq<Node<T>>, t: seq<Node<T>>)
    ensures Data(s + t) == Data(s) + Data(t)
  {
    assert |Data(s + t)| == |Data(s) + Data(t)|;
    forall i | 0 <= i < |s| + |t|
      ensures Data(s + t)[i] == (Data(s) + Data(t))[i]
    {
      if i >= |s| {
        assert (s + t)[i] == t[i - |s|];
      }
    }
  }

  /** Linking nodes in MergeFrom's order orders their items as Merge does. */
  lemma {:induction false} MergeFromData<T>(cmp: (T, T) -> int, ca: seq<Node<T>>, cb: seq<Node<T>>, ia: nat, ib: nat)
    requires ia <= |ca| && ib <= |cb|
    ensures Data(MergeFrom(cmp, ca, cb, ia, ib)) == Merge(cmp, Data(ca)[ia..], Data(cb)[ib..])
    decreases |ca| - ia + |cb| - ib
  {
    var da, db := Data(ca)[ia..], Data(cb)[ib..];
    if ia == |ca| && ib == |cb| {
      assert da == [] && db == [];
    } else if ib == |cb| || (ia < |ca| && cmp(ca[ia].data, cb[ib].data) < 0) {
      var rest := MergeFrom(cmp, ca, cb, ia + 1, ib);
      MergeFromData(cmp, ca, cb, ia + 1, ib);
      assert MergeFrom(cmp, ca, cb, ia, ib) == [ca[ia]] + rest;
      DataAppend([ca[ia]], rest);
      assert Data([ca[ia]]) == [da[0]];
      assert da[1..] == Data(ca)[ia + 1..];
      assert db != [] ==> db[0] == cb[ib].data;
      assert Merge(cmp, da, db) == [da[0]] + Merge(cmp, da[1..], db);
    } else {
      var rest := MergeFrom(cmp, ca, cb, ia, ib + 1);
      MergeFromData(cmp, ca, cb, ia, ib + 1);
      assert MergeFrom(cmp, ca, cb, ia, ib) == [cb[ib]] + rest;
      DataAppend([cb[ib]], rest);
      assert Data([cb[ib]]) == [db[0]];
      assert db[1..] == Data(cb)[ib + 1..];
      assert da != [] ==> da[0] == ca[ia].data;
      assert Merge(cmp, da, db) == [db[0]] + Merge(cmp, da, db[1..]);
    }
  }

  /** A node not in a sequence of distinct nodes can go in front of it. */
  lemma DistinctCons<T>(x: Node<T>, s: seq<Node<T>>)
    requires Distinct(s) && x !in s
    ensures Distinct([x] + s)
  {
    var t := [x] + s;
    forall i, j | 0 <= i < |t| && 0 <= j < |t| && i != j
      ensures t[i] != t[j]
    {
      if i > 0 && j > 0 {
        assert t[i] == s[i - 1] && t[j] == s[j - 1];
      } else if i > 0 {
        assert t[i] == s[i - 1];
      } else {
        assert t[j] == s[j - 1];
      }
    }
  }

  /** MergeFrom links exactly the nodes of the two remaining runs: merging
      neither loses a node nor brings in another. */
  lemma {:induction false} MergeFromHas<T>(cmp: (T, T) -> int, ca: seq<Node<T>>, cb: seq<Node<T>>, ia: nat, ib: nat, x: object)
    requires ia <= |ca| && ib <= |cb|
    ensures x in MergeFrom(cmp, ca, cb, ia, ib) <==> x in ca[ia..] || x in cb[ib..]
    decreases |ca| - ia + |cb| - ib
  {
    if ia == |ca| && ib == |cb| {
    } else if ib == |cb| || (ia < |ca| && cmp(ca[ia].data, cb[ib].data) < 0) {
      MergeFromHas(cmp, ca, cb, ia + 1, ib, x);
      assert ca[ia..] == [ca[ia]] + ca[ia + 1..];
    } else {
      MergeFromHas(cmp, ca, cb, ia, ib + 1, x);
      assert cb[ib..] == [cb[ib]] + cb[ib + 1..];
    }
  }

  /** The front node of run `ca` is not among the nodes `merge` links
      after it. */
  lemma FrontANotAfter<T>(cmp: (T, T) -> int, ca: seq<Node<T>>, cb: seq<Node<T>>, ia: nat, ib: nat)
    requires ia < |ca| && ib <= |cb|
    requires Distinct(ca) && Disjoint(ca, cb)
    ensures ca[ia] !in MergeFrom(cmp, ca, cb, ia + 1, ib)
  {
    MergeFromHas(cmp, ca, cb, ia + 1, ib, ca[ia]);
    assert forall j :: ia + 1 <= j < |ca| ==> ca[j] != ca[ia];
    assert forall j :: ib <= j < |cb| ==> cb[j] != ca[ia];
  }

  /** The front node of run `cb` is not among the nodes `merge` links
      after it. */
  lemma FrontBNotAfter<T>(cmp: (T, T) -> int, ca: seq<Node<T>>, cb: seq<Node<T>>, ia: nat, ib: nat)
    requires ia <= |ca| && ib < |cb|
    requires Distinct(cb) && Disjoint(ca, cb)
    ensures cb[ib] !in MergeFrom(cmp, ca, cb, ia, ib + 1)
  {
    MergeFromHas(cmp, ca, cb, ia, ib + 1, cb[ib]);
    assert forall j :: ia <= j < |ca| ==> ca[j] != cb[ib];
    assert forall j :: ib + 1 <= j < |cb| ==> cb[j] != cb[ib];
  }

  /** Merging two disjoint runs of distinct nodes gives distinct nodes. */
  lemma {:induction false} MergeFromDistinct<T>(cmp: (T, T) -> int, ca: seq<Node<T>>, cb: seq<Node<T>>, ia: nat, ib: nat)
    requires ia <= |ca| && ib <= |cb|
    requires Distinct(ca) && Distinct(cb) && Disjoint(ca, cb)
    ensures Distinct(MergeFrom(cmp, ca, cb, ia, ib))
    decreases |ca| - ia + |cb| - ib
  {
    if ia == |ca| && ib == |cb| {
    } else if ib == |cb| || (ia < |ca| && cmp(ca[ia].data, cb[ib].data) < 0) {
      var rest := MergeFrom(cmp, ca, cb, ia + 1, ib);
      assert MergeFrom(cmp, ca, cb, ia, ib) == [ca[ia]] + rest;
      MergeFromDistinct(cmp, ca, cb, ia + 1, ib);
      FrontANotAfter(cmp, ca, cb, ia, ib);
      DistinctCons(ca[ia], rest);
    } else {
      var rest := MergeFrom(cmp, ca, cb, ia, ib + 1);
      assert MergeFrom(cmp, ca, cb, ia, ib) == [cb[ib]] + rest;
      MergeFromDistinct(cmp, ca, cb, ia, ib + 1);
      FrontBNotAfter(cmp, ca, cb, ia, ib);
      DistinctCons(cb[ib], rest);
    }
  }

  /** From position k on, `cm` lists the nodes of ca[ia..] and cb[ib..] in
      MergeFrom's order, stated one position at a time. */
  ghost predicate MergesAt<T>(cmp: (T, T) -> int, ca: seq<Node<T>>, cb: seq<Node<T>>, ia: nat, ib: nat, cm: seq<Node<T>>, k: nat)
    requires ia <= |ca| && ib <= |cb|
    decreases |ca| - ia + |cb| - ib
  {
    && k + (|ca| - ia) + (|cb| - ib) == |cm|
    && (ia < |ca| || ib < |cb| ==>
          if ib == |cb| || (ia < |ca| && cmp(ca[ia].data, cb[ib].data) < 0)
          then cm[k] == ca[ia] && MergesAt(cmp, ca, cb, ia + 1, ib, cm, k + 1)
          else cm[k] == cb[ib] && MergesAt(cmp, ca, cb, ia, ib + 1, cm, k + 1))
  }

  /** MergeFrom's order, placed at position k of `cm`, satisfies MergesAt. */
  lemma {:induction false} MergeFromMergesAt<T>(cmp: (T, T) -> int, ca: seq<Node<T>>, cb: seq<Node<T>>, ia: nat, ib: nat, cm: seq<Node<T>>, k: nat)
    requires ia <= |ca| && ib <= |cb| && k + (|ca| - ia) + (|cb| - ib) == |cm|
    requires forall t :: 0 <= t < |ca| - ia + |cb| - ib ==> cm[k + t] == MergeFrom(cmp, ca, cb, ia, ib)[t]
    ensures MergesAt(cmp, ca, cb, ia, ib, cm, k)
    decreases |ca| - ia + |cb| - ib
  {
    if ia < |ca| || ib < |cb| {
      var order := MergeFrom(cmp, ca, cb, ia, ib);
      assert cm[k + 0] == order[0];
      if ib == |cb| || (ia < |ca| && cmp(ca[ia].data, cb[ib].data) < 0) {
        var rest := MergeFrom(cmp, ca, cb, ia + 1, ib);
        assert order == [ca[ia]] + rest;
        forall t | 0 <= t < |rest|
          ensures cm[k + 1 + t] == rest[t]
        {
          assert cm[k + (t + 1)] == order[t + 1];
        }
        MergeFromMergesAt(cmp, ca, cb, ia + 1, ib, cm, k + 1);
      } else {
        var rest := MergeFrom(cmp, ca, cb, ia, ib + 1);
        assert order == [cb[ib]] + rest;
        forall t | 0 <= t < |rest|
          ensures cm[k + 1 + t] == rest[t]
        {
          assert cm[k + (t + 1)] == order[t + 1];
        }
        MergeFromMergesAt(cmp, ca, cb, ia, ib + 1, cm, k + 1);
      }
    }
  }

  /** MergesAt pins down the order: it holds only for MergeFrom's order. */
  lemma {:induction false} MergesAtUnique<T>(cmp: (T, T) -> int, ca: seq<Node<T>>, cb: seq<Node<T>>, ia: nat, ib: nat, cm: seq<Node<T>>, k: nat)
    requires ia <= |ca| && ib <= |cb|
    requires MergesAt(cmp, ca, cb, ia, ib, cm, k)
    ensures k <= |cm| && cm[k..] == MergeFrom(cmp, ca, cb, ia, ib)
    decreases |ca| - ia + |cb| - ib
  {
    if ia < |ca| || ib < |cb| {
      if ib == |cb| || (ia < |ca| && cmp(ca[ia].data, cb[ib].data) < 0) {
        MergesAtUnique(cmp, ca, cb, ia + 1, ib, cm, k + 1);
      } else {
        MergesAtUnique(cmp, ca, cb, ia, ib + 1, cm, k + 1);
      }
      assert cm[k..] == [cm[k]] + cm[k + 1..];
    }
  }

  /** The order in which `merge` links the nodes of two disjoint runs of
      distinct nodes: distinct nodes, as MergesAt describes them. */
  lemma MergeOrder<T>(cmp: (T, T) -> int, ca: seq<Node<T>>, cb: seq<Node<T>>) returns (cm: seq<Node<T>>)
    requires Distinct(ca) && Distinct(cb) && Disjoint(ca, cb)
    ensures Distinct(cm) && MergesAt(cmp, ca, cb, 0, 0, cm, 0)
  {
    cm := MergeFrom(cmp, ca, cb, 0, 0);
    MergeFromDistinct(cmp, ca, cb, 0, 0);
    MergeFromMergesAt(cmp, ca, cb, 0, 0, cm, 0);
  }

  /** The state of `merge` each time it tests its loop condition, after it
      took ia nodes of run `ca` and ib nodes of run `cb`: `a` and `b` are
      the fronts of what is left of the runs, whose links are untouched; the
      nodes taken, cm[..ia + ib], hang behind the dummy `head` in a chain
      ending at `node`, whose `prev` still points to the front of the run it
      came from. */
  ghost predicate MergeLoop<T>(cmp: (T, T) -> int, ca: seq<Node<T>>, cb: seq<Node<T>>, cm: seq<Node<T>>,
                               head: Node<T>, node: Node<T>, a: Node?<T>, b: Node?<T>,
                               ia: nat, ib: nat, fromA: bool)
    reads Elements(ca), Elements(cb), Elements(cm), head, node
  {
    && ia <= |ca| && ib <= |cb|
    && MergesAt(cmp, ca, cb, ia, ib, cm, ia + ib)
    && a == (if ia < |ca| then ca[ia] else null)
    && b == (if ib < |cb| then cb[ib] else null)
    && (forall j {:trigger ca[j].prev} :: ia <= j < |ca| - 1 ==> ca[j].prev == ca[j + 1])
    && (ia < |ca| ==> ca[|ca| - 1].prev == null)
    && (forall j {:trigger cb[j].prev} :: ib <= j < |cb| - 1 ==> cb[j].prev == cb[j + 1])
    && (ib < |cb| ==> cb[|cb| - 1].prev == null)
    && (ia + ib == 0 ==> node == head)
    && (ia + ib > 0 ==> node == cm[ia + ib - 1] && head.prev == cm[0] && cm[0].next == head)
    && (ia + ib > 0 && fromA ==> 0 < ia && node == ca[ia - 1] && node.prev == a)
    && (ia + ib > 0 && !fromA ==> 0 < ib && node == cb[ib - 1] && node.prev == b)
    && (forall i {:trigger cm[i].prev} :: 0 <= i < ia + ib - 1 ==> cm[i].prev == cm[i + 1])
    && (forall i {:trigger cm[i].next} :: 0 < i < ia + ib ==> cm[i].next == cm[i - 1])
  }

  /** One round of `merge`'s loop: the front of run `a` is taken when run
      `b` is used up or when its item compares strictly below the front of
      `b`; otherwise the front of `b` is taken. The node taken is linked
      behind `node` and becomes the new `node`. */
  method LinkNext<T>(cmp: (T, T) -> int, head: Node<T>, node: Node<T>, a: Node?<T>, b: Node?<T>,
                     ghost ca: seq<Node<T>>, ghost cb: seq<Node<T>>, ghost cm: seq<Node<T>>,
                     ghost ia: nat, ghost ib: nat, ghost fromA: bool)
    returns (node': Node<T>, a': Node?<T>, b': Node?<T>, ghost ia': nat, ghost ib': nat, ghost fromA': bool)
    requires Distinct(ca) && Distinct(cb) && Disjoint(ca, cb) && Distinct(cm)
    requires forall j :: 0 <= j < |ca| ==> ca[j] != head
    requires forall j :: 0 <= j < |cb| ==> cb[j] != head
    requires MergeLoop(cmp, ca, cb, cm, head, node, a, b, ia, ib, fromA)
    requires a != null || b != null
    modifies node, a, b
    ensures MergeLoop(cmp, ca, cb, cm, head, node', a', b', ia', ib', fromA')
    ensures ia' + ib' == ia + ib + 1
  {
    ghost var k := ia + ib;
    if b == null || (a != null && cmp(a.data, b.data) < 0) {
      node.prev := a;
      a', b' := a.prev, b;
      ia', ib', fromA' := ia + 1, ib, true;
    } else {
      node.prev := b;
      a', b' := a, b.prev;
      ia', ib', fromA' := ia, ib + 1, false;
    }
    node.prev.next := node;
    node' := node.prev;
    // Only the old `node`'s prev and the new one's next were written.
    forall j {:trigger ca[j].prev} | ia' <= j < |ca| - 1
      ensures ca[j].prev == ca[j + 1]
    {
      assert ca[j] != node;
    }
    forall j {:trigger cb[j].prev} | ib' <= j < |cb| - 1
      ensures cb[j].prev == cb[j + 1]
    {
      assert cb[j] != node;
    }
    forall i {:trigger cm[i].prev} | 0 <= i < k - 1
      ensures cm[i].prev == cm[i + 1]
    {
      assert cm[i] != node;
    }
    forall i {:trigger cm[i].next} | 0 < i < k
      ensures cm[i].next == cm[i - 1]
    {
      assert cm[i] != cm[k];
    }
  }

  /** When both runs are used up, every node has been taken, and the nodes
      taken are linked as a chain except that the first still points back
      at the dummy `head`. */
  lemma MergeLoopDone<T>(cmp: (T, T) -> int, ca: seq<Node<T>>, cb: seq<Node<T>>, cm: seq<Node<T>>,
                         head: Node<T>, node: Node<T>, ia: nat, ib: nat, fromA: bool)
    requires MergeLoop(cmp, ca, cb, cm, head, node, null, null, ia, ib, fromA)
    requires ca != [] || cb != []
    ensures cm != [] && node == cm[|cm| - 1] && node.prev == null && head.prev == cm[0]
    ensures forall i {:trigger cm[i].prev} :: 0 <= i < |cm| - 1 ==> cm[i].prev == cm[i + 1]
    ensures forall i {:trigger cm[i].next} :: 0 < i < |cm| ==> cm[i].next == cm[i - 1]
  {
    assert ia == |ca| && ib == |cb|;
  }

  /** merge: links the nodes of two runs, behind a dummy head, in the order
      Merge gives them; the last node linked becomes the list's tail and the
      node after the dummy is returned. */
  method MergeChains<T>(list: LinkedList<T>, runA: Node?<T>, runB: Node?<T>,
                        ghost ca: seq<Node<T>>, ghost cb: seq<Node<T>>)
    returns (first: Node<T>, ghost cm: seq<Node<T>>)
    requires Chain(ca) && Chain(cb) && Disjoint(ca, cb) && (ca != [] || cb != [])
    requires runA == First(ca) && runB == First(cb)
    modifies Elements(ca), Elements(cb), list`tail
    ensures MergesAt(list.compare, ca, cb, 0, 0, cm, 0)
    ensures Chain(cm) && first == cm[0] && list.tail == Last(cm)
  {
    cm := MergeOrder(list.compare, ca, cb);
    // The dummy's item is never read; any item of the runs will do.
    var node := new Node(null, null, if runA != null then runA.data else runB.data);
    var head := node;
    assert forall j :: 0 <= j < |ca| ==> ca[j] != head;
    assert forall j :: 0 <= j < |cb| ==> cb[j] != head;
    var a, b := runA, runB;
    ghost var ia, ib := 0, 0;
    ghost var fromA := false;  // whether `node` came from run a
    while a != null || b != null
      invariant MergeLoop(list.compare, ca, cb, cm, head, node, a, b, ia, ib, fromA)
      decreases |ca| - ia + |cb| - ib
    {
      node, a, b, ia, ib, fromA := LinkNext(list.compare, head, node, a, b, ca, cb, cm, ia, ib, fromA);
    }
    MergeLoopDone(list.compare, ca, cb, cm, head, node, ia, ib, fromA);
    head.prev.next := null;
    list.tail := node;
    first := head.prev;
    forall i {:trigger cm[i].next} | 0 < i < |cm|
      ensures cm[i].next == cm[i - 1]
    {
      assert cm[i] != cm[0];
    }
  }

  /** The two parts of a chain cut at m hold, between them, exactly the
      chain's nodes, and share none. */
  lemma CutNodes<T>(c: seq<Node<T>>, m: nat)
    requires Distinct(c) && m <= |c|
    ensures Elements(c[..m]) + Elements(c[m..]) == Elements(c)
    ensures Elements(c[..m]) !! Elements(c[m..])
  {
    assert c == c[..m] + c[m..];
    forall x | x in Elements(c[..m])
      ensures x !in Elements(c[m..])
    {
      var i :| 0 <= i < m && c[i] == x;
      assert forall j :: m <= j < |c| ==> c[j] != c[i];
    }
  }

  /** Node sequences holding the same nodes as two disjoint ones are
      disjoint. */
  lemma DisjointSameNodes<T>(a: seq<Node<T>>, b: seq<Node<T>>)
    requires Elements(a) !! Elements(b)
    ensures Disjoint(a, b)
  {
    forall i, j | 0 <= i < |a| && 0 <= j < |b|
      ensures a[i] != b[j]
    {
      assert a[i] in Elements(a) && b[j] in Elements(b);
    }
  }

  /** The last step of `mergeSort` on a chain `c` of at least two nodes,
      for its nodes: when `ca` and `cb` hold the nodes of the two parts
      `split` leaves, `merge` links exactly the nodes of `c`. */
  lemma MergeSortNodes<T>(cmp: (T, T) -> int, c: seq<Node<T>>, ca: seq<Node<T>>, cb: seq<Node<T>>, cm: seq<Node<T>>)
    requires |c| >= 2 && |ca| + |cb| == |c|
    requires Elements(ca) == Elements(c[..SplitPoint(|c|)]) && Elements(cb) == Elements(c[SplitPoint(|c|)..])
    requires MergesAt(cmp, ca, cb, 0, 0, cm, 0)
    ensures Elements(cm) == Elements(c) && |cm| == |c|
  {
    var m := SplitPoint(|c|);
    MergesAtUnique(cmp, ca, cb, 0, 0, cm, 0);
    assert c == c[..m] + c[m..];
    forall x: object
      ensures x in Elements(cm) <==> x in Elements(c)
    {
      MergeFromHas(cmp, ca, cb, 0, 0, x);
      assert ca[0..] == ca && cb[0..] == cb;
      assert x in Elements(ca) <==> x in Elements(c[..m]);
      assert x in Elements(cb) <==> x in Elements(c[m..]);
      assert x in c <==> x in c[..m] || x in c[m..];
    }
  }

  /** The last step of `mergeSort` on a chain `c` of at least two nodes,
      for its items: when the items of `ca` and `cb` are the items of the
      two parts `split` leaves, sorted by MergeSort, the items in the order
      `merge` links them are MergeSort's order of the items of `c`. */
  lemma MergeSortItems<T>(cmp: (T, T) -> int, c: seq<Node<T>>, ca: seq<Node<T>>, cb: seq<Node<T>>, cm: seq<Node<T>>)
    requires |c| >= 2
    requires Data(ca) == MergeSort(cmp, Data(c[..SplitPoint(|c|)]))
    requires Data(cb) == MergeSort(cmp, Data(c[SplitPoint(|c|)..]))
    requires MergesAt(cmp, ca, cb, 0, 0, cm, 0)
    ensures Data(cm) == MergeSort(cmp, Data(c))
  {
    var m := SplitPoint(|c|);
    MergesAtUnique(cmp, ca, cb, 0, 0, cm, 0);
    assert cm == MergeFrom(cmp, ca, cb, 0, 0);
    MergeFromData(cmp, ca, cb, 0, 0);
    assert Data(ca)[0..] == Data(ca) && Data(cb)[0..] == Data(cb);
    DataCut(c, m);
  }

  /** mergeSort: sorts the chain `c` that starts at `first` by relinking its
      nodes. A chain of fewer than two nodes comes back as it is; a longer
      one is split, both parts are sorted (SortParts) and the results are
      merged, which makes the last node merged the list's tail. The result
      is a chain of the same nodes whose items are in MergeSort's order. */
  method MergeSortChain<T>(list: LinkedList<T>, first: Node?<T>, ghost c: seq<Node<T>>)
    returns (r: Node?<T>, ghost c': seq<Node<T>>)
    requires Chain(c) && first == First(c)
    modifies Elements(c), list`tail
    ensures Chain(c') && r == First(c') && Elements(c') == Elements(c) && |c'| == |c|
    ensures Data(c') == MergeSort(list.compare, Data(c))
    ensures |c| >= 2 ==> list.tail == Last(c')
    ensures |c| < 2 ==> c' == c && list.tail == old(list.tail)
    decreases |c|, 1
  {
    if first == null || first.prev == null {
      return first, c;
    }
    var second := SplitChain(first, c);
    ghost var m := SplitPoint(|c|);
    CutNodes(c, m);
    var a, b, ca, cb := SortParts(list, first, second, c[..m], c[m..]);
    DisjointSameNodes(ca, cb);
    r, c' := MergeChains(list, a, b, ca, cb);
    MergeSortNodes(list.compare, c, ca, cb, c');
    MergeSortItems(list.compare, c, ca, cb, c');
  }

  /** The two recursive calls of `mergeSort`, on the chains `c1` and `c2`
      that `split` left. Each sorted chain holds the nodes of its part, so
      the two share none. */
  method SortParts<T>(list: LinkedList<T>, first: Node<T>, second: Node<T>,
                      ghost c1: seq<Node<T>>, ghost c2: seq<Node<T>>)
    returns (a: Node<T>, b: Node<T>, ghost ca: seq<Node<T>>, ghost cb: seq<Node<T>>)
    requires Chain(c1) && Chain(c2) && Elements(c1) !! Elements(c2)
    requires c1 != [] && c2 != [] && first == c1[0] && second == c2[0]
    modifies Elements(c1), Elements(c2), list`tail
    ensures Chain(ca) && Chain(cb) && a == First(ca) && b == First(cb)
    ensures Elements(ca) == Elements(c1) && Elements(cb) == Elements(c2)
    ensures |ca| == |c1| && |cb| == |c2|
    ensures Data(ca) == MergeSort(list.compare, Data(c1))
    ensures Data(cb) == MergeSort(list.compare, Data(c2))
    decreases |c1| + |c2|, 0
  {
    var r1, r2;
    r1, ca := MergeSortChain(list, first, c1);
    r2, cb := MergeSortChain(list, second, c2);
    a, b := r1, r2;
  }

  /** The relinking step of sortLL: merge-sorts the list's chain and makes
      its first node the head. The nodes and length stay the same, and the
      links are valid again; the sorted flag is left to the caller. */
  method SortLinks<T>(list: LinkedList<T>)
    requires list.Valid()
    modifies Footprint(list)
    ensures Chain(list.Nodes) && list.length == |list.Nodes|
    ensures list.head == First(list.Nodes) && list.tail == Last(list.Nodes)
    ensures list.Contents() == MergeSort(list.compare, old(list.Contents()))
    ensures Elements(list.Nodes) == Elements(old(list.Nodes))
    ensures list.length == old(list.length)
  {
    var first: Node?<T>;
    ghost var c: seq<Node<T>>;
    first, c := MergeSortChain(list, list.head, list.Nodes);
    list.head, list.Nodes := first, c;
  }

  /** sortLL: relinks the list's nodes into merge-sorted order and marks
      the list sorted. The nodes are the same ones; their items come out in
      MergeSort's order, which is non-decreasing and a permutation of the
      items before (MergeSortSorted). Returns 0 for a NULL list, 1
      otherwise. */
  method Sort<T(!new)>(list: LinkedList?<T>) returns (r: int)
    requires list != null ==> list.Valid() && TotalPreorder(list.compare)
    modifies Footprint(list)
    ensures list == null ==> r == 0
    ensures list != null ==> && r == 1 && list.Valid() && list.sorted
                              && list.Contents() == MergeSort(list.compare, old(list.Contents()))
                              && Elements(list.Nodes) == Elements(old(list.Nodes))
                              && list.length == old(list.length)
  {
    if list == null {
      return 0;
    }
    SortLinks(list);
    MergeSortSorted(list.compare, old(list.Contents()));
    list.sorted := true;
    return 1;
  }

  /** destroyLinkedList: hands every item, head to tail, to the caller's
      `destroyData` callback; `destroyed` lists those calls in order. */
  method Destroy<T>(list: LinkedList?<T>) returns (r: int, destroyed: seq<T>)
    requires list != null ==> list.Valid()
    ensures list == null ==> r == 0 && destroyed == []
    ensures list != null ==> r == 1 && destroyed == list.Contents()
  {
    if list == null {
      return 0, [];
    }
    var node := list.head;
    destroyed := [];
    while node != null
      invariant |destroyed| <= list.length
      invariant destroyed == list.Contents()[..|destroyed|]
      invariant node == if |destroyed| < list.length then list.Nodes[|destroyed|] else null
      decreases list.length - |destroyed|
    {
      destroyed := destroyed + [node.data];
      node := node.prev;
    }
    return 1, destroyed;
  }
}
