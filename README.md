# CDataStructures in Dafny

A model of the three containers of CDataStructures, with proofs:

- the doubly linked list of `linkedList/src/linkedList.c`, including the cached `sorted` flag, `insertSortedLL` and the in-place merge sort (`split`, `merge`, `mergeSort`, `sortLL`);
- the FIFO queue of `queue/src/queue.c`;
- the LIFO stack of `stack/src/stack.c`.

Each container is a Dafny `class` with the C struct's fields other than the callbacks (see "## Left out"), and each node is a class too. The list's `next` and `prev` and the queue's `next` are mutable fields that the methods rewrite in place. A stack node's `next` is a `const`, because stack.c sets it only when it creates the node.

A ghost sequence `Nodes` lists the nodes in order, and a `Valid()` predicate ties the fields to it:

- For the list, `Valid()` requires:
  - walking from `head` along `prev` and from `tail` along `next` visits the same `length` nodes in opposite orders;
  - the two ends point to null;
  - when `sorted` is set, the items are non-decreasing under the caller's comparator.
- For the queue, `Valid()` requires the `next` chain to run from `head` to `tail` with `length` nodes.
- For the stack, `Valid()` requires the `next` chain to start at `top` with `size` nodes.

`Contents()` is the sequence of items the nodes carry.

In linkedList.c, `prev` points toward the tail and `next` toward the head. The model follows the code. The header's doc comment states the opposite.

The public C functions take a possibly NULL container pointer. Here they are module-level methods taking a nullable reference (`LinkedList?<T>`, `Queue?<T>`, `Stack?<T>`), and NULL gives the C failure result. Functions returning `void *` return `Option<T>`, with `None` standing for NULL.

The caller's `compareData` callback is a function `(T, T) -> int` stored in the list. `Ordering.TotalPreorder` is what the sort and `insertSortedLL` require of it. `destroyData` is modelled by the sequence of items handed to it, in call order.

The merge sort is specified on values in `MergeSortSpec`:

- `SplitPoint` is where `split` cuts;
- `Merge` is the order in which `merge` consumes two runs;
- `MergeSort` is what `mergeSort` computes.

The heap methods are proved to relink the nodes in exactly that order. `MergeFrom` is the node-level counterpart of `Merge`, and `MergesAt` states it one position at a time.

Every `merge` call, including the inner ones made by the recursion, is proved to set the list's `tail` to the last node it linked. Only the outermost call's write is still in place when `sortLL` returns, and `Sort` states that through `Valid()`.

Files:

- `wrappers.dfy`: `Option`.
- `ordering.dfy`: the comparator contract and sortedness.
- `merge_sort_spec.dfy`: the value-level merge sort and its properties.
- `linked_list.dfy`: the list.
- `queue.dfy`: the queue.
- `stack.dfy`: the stack.

## Model

| member | source | states |
|---|---|---|
| LinkedLists.Node.constructor | linkedList/src/linkedList.c:5-11 | a new node carries the given `next` and `prev` links and the given item |
| LinkedLists.LinkedList.Valid | linkedList/src/linkedList.c:136-184 | walking from `head` along `prev` and from `tail` along `next` visits the same `length` nodes in opposite orders, both ends point to null, and a set `sorted` flag means the items are non-decreasing; in a valid list `head` and `tail` are each null exactly when `length` is 0 |
| LinkedLists.LinkedList.constructor | linkedList/src/linkedList.c:113-122 | a new list is valid, empty, with null `head` and `tail`, flagged sorted, and keeps the comparator |
| LinkedLists.AddToFront | linkedList/src/linkedList.c:136-153 | NULL gives 0; otherwise returns 1, the items become `[data] + s` with a fresh node in front, links stay valid, and `sorted` is cleared exactly when the new length exceeds 1 |
| LinkedLists.AddToBack | linkedList/src/linkedList.c:167-184 | NULL gives 0; otherwise returns 1, the items become `s + [data]` with a fresh node at the back, links stay valid, same flag rule |
| LinkedLists.InsertAt | linkedList/src/linkedList.c:199-225 | NULL, `index < 0` or `index > length` give 0 and change nothing; otherwise returns 1, the items become `s[..index] + [data] + s[index..]`, the length grows by one, and the flag rule of the add functions holds |
| LinkedLists.LinkAfter | linkedList/src/linkedList.c:215-222 | linking a new node behind the node at position k - 1 places it at position k, keeps the links valid and clears the flag |
| LinkedLists.RemoveAt | linkedList/src/linkedList.c:237-268 | NULL or an index outside `0 .. length - 1` gives None and changes nothing; otherwise returns `s[index]`, the items and nodes become `s[..index] + s[index + 1..]`, the length drops by one, and `sorted` is set when fewer than two items remain and kept otherwise |
| LinkedLists.Unlink | linkedList/src/linkedList.c:248-266 | bypassing the node at position k from both sides, moving `head` or `tail` at an end, leaves a valid list of the other nodes in order, with the flag still truthful |
| LinkedLists.InsertThenRemove | linkedList/src/linkedList.c:199-268 | inserting at a valid position and then removing at that position returns the inserted item and restores the items and length |
| LinkedLists.Get | linkedList/src/linkedList.c:280-298 | returns `s[index]` for `0 <= index < length`, whichever end it walks from, and None otherwise (including NULL); changes nothing |
| LinkedLists.Search | linkedList/src/linkedList.c:310-324 | returns the least `i` with `compare(data, s[i]) == 0`, or -1 when there is none or the list is NULL; changes nothing |
| LinkedLists.InsertSorted | linkedList/src/linkedList.c:336-362 | NULL or an unflagged list gives -1 and changes nothing; otherwise returns the position `r` such that every item before it compares at most equal to `data` and the item at `r` compares above it, the items become `s[..r] + [data] + s[r..]`, and the list stays flagged sorted (and so non-decreasing) |
| LinkedLists.LinkBefore | linkedList/src/linkedList.c:345-353 | linking a new node in front of the node at position k places it at position k, keeps the links valid, and leaves the flag as it was |
| Ordering.SortedInsert | linkedList/src/linkedList.c:343-361 | placing an item just before the first item that compares above it keeps a non-decreasing sequence non-decreasing under a total preorder |
| Ordering.SortedRemove | linkedList/src/linkedList.c:262-266 | removing one item keeps a non-decreasing sequence non-decreasing, so a list that keeps its flag after removal is still sorted |
| Ordering.PreorderReflexiveTotal | linkedList/src/linkedList.c:30 | under a total preorder every item compares equal to itself, any two items compare one way or the other, and when `a` does not compare strictly below `b` (the case in which `merge` takes `b`) then `b` compares at most equal to `a`; `MergeSorted` uses this last fact |
| LinkedLists.SplitChain | linkedList/src/linkedList.c:59-71 | on a chain of at least two nodes, `split` leaves the two chains `c[..SplitPoint(|c|)]` and `c[SplitPoint(|c|)..]`, whose concatenation is the input, and returns the head of the second |
| MergeSortSpec.SplitPoint | linkedList/src/linkedList.c:62-65 | the slow/fast walk cuts `n >= 2` nodes into two non-empty parts, the first holding ceil(n/2) |
| MergeSortSpec.Merge | linkedList/src/linkedList.c:29-37 | the merged run has the length of both runs and their items as a multiset |
| MergeSortSpec.MergeSort | linkedList/src/linkedList.c:83-98 | merge sort returns a permutation of its input |
| MergeSortSpec.MergeSorted | linkedList/src/linkedList.c:26-46 | merging two non-decreasing runs under a total preorder gives a non-decreasing run |
| MergeSortSpec.MergeSortSorted | linkedList/src/linkedList.c:83-98 | under a total preorder, merge sort's result is non-decreasing and a permutation of its input |
| MergeSortSpec.MergeSortStrictlyIncreasing | linkedList/src/linkedList.c:83-98 | sorting a sequence without ties, already strictly increasing, returns it unchanged |
| MergeSortSpec.MergeSeparated | linkedList/src/linkedList.c:29-37 | when every item of `a` compares strictly below every item of `b`, merging is concatenation |
| MergeSortSpec.MergeSortSwapsTies | linkedList/src/linkedList.c:30 | the sort is not stable: two items that compare equal, already in order, come out swapped, because `merge` takes from `a` only on a strictly smaller verdict |
| LinkedLists.MergeFrom | linkedList/src/linkedList.c:29-37 | the order in which `merge` links nodes holds as many nodes as both remaining runs |
| LinkedLists.MergeFromHas | linkedList/src/linkedList.c:29-38 | `merge` links exactly the nodes of the two runs: none is lost and none is added |
| LinkedLists.MergeFromDistinct | linkedList/src/linkedList.c:29-38 | merging two disjoint runs of distinct nodes links every node once |
| LinkedLists.MergeFromData | linkedList/src/linkedList.c:29-38 | the items of the nodes in `merge`'s linking order are `Merge` of the runs' items |
| LinkedLists.MergesAtUnique | linkedList/src/linkedList.c:29-38 | the position-by-position description of `merge`'s order holds only for that order |
| LinkedLists.LinkNext | linkedList/src/linkedList.c:30-38 | one round of `merge`'s loop takes the front of `a` exactly when `b` is used up or `a`'s item compares strictly below `b`'s, links it behind `node`, and keeps the loop's invariant one step further |
| LinkedLists.MergeChains | linkedList/src/linkedList.c:26-46 | `merge` relinks the nodes of two disjoint chains into one chain in `MergeFrom`'s order, returns its first node and makes its last node the list's tail |
| LinkedLists.MergeSortNodes | linkedList/src/linkedList.c:90-96 | splitting, sorting both parts and merging keeps exactly the nodes of the chain |
| LinkedLists.MergeSortItems | linkedList/src/linkedList.c:90-96 | when both parts come back in `MergeSort` order, merging them gives `MergeSort` of the whole chain's items |
| LinkedLists.MergeSortChain | linkedList/src/linkedList.c:83-98 | `mergeSort` returns a chain of the same nodes whose items are `MergeSort` of the input's; a chain of fewer than two nodes comes back untouched; otherwise the last node merged becomes the list's tail |
| LinkedLists.SortParts | linkedList/src/linkedList.c:92-93 | the two recursive calls each return a chain of the nodes of their part, with the items in `MergeSort` order |
| LinkedLists.SortLinks | linkedList/src/linkedList.c:377 | `list->head = mergeSort(list, list->head)` leaves a valid chain of the same nodes, with the same length, `head` and `tail` at its ends, and items in `MergeSort` order |
| LinkedLists.Sort | linkedList/src/linkedList.c:373-380 | NULL gives 0; otherwise returns 1, the list is valid and flagged sorted (so non-decreasing), its items are `MergeSort` of the items before, and its nodes and length are the same |
| LinkedLists.Destroy | linkedList/src/linkedList.c:399-413 | NULL gives 0; otherwise returns 1 and hands every item to `destroyData` once, head to tail |
| Queues.Queue.Valid | queue/src/queue.c:97-101 | in a valid queue `head` is null exactly when `tail` is, and exactly when `length` is 0; `enqueue` keeps this at lines 97-101 and `dequeue` at lines 62-65 |
| Queues.QueueNode.constructor | queue/src/queue.c:94-95 | a new node (`createQueueNode`, queue.c:5-8) carries the given item and a null `next`, the two writes `enqueue` makes at lines 94-95 |
| Queues.Queue.constructor | queue/src/queue.c:27-35 | a new queue is valid and empty, with null `head` and `tail` and length 0 |
| Queues.Enqueue | queue/src/queue.c:86-106 | NULL or a failed allocation gives 0 and changes nothing; otherwise returns 1, the items become `s + [data]`, the length grows by one, the new node is the tail, and also the head when the queue was empty |
| Queues.Dequeue | queue/src/queue.c:50-68 | NULL or an empty queue gives None and changes nothing; otherwise returns `s[0]`, the items become `s[1..]`, the length drops by one, and `tail` becomes null when the last item leaves |
| Queues.Destroy | queue/src/queue.c:127-144 | NULL gives 0; otherwise returns 1 and hands every item to `destroyData` once, head to tail, or none when there is no callback |
| Queues.EnqueueThenDequeue | queue/src/queue.c:50-106 | enqueue then dequeue returns the front of `s + [data]` and leaves its rest; on an empty queue that returns `data` and leaves the queue empty with null `head` and `tail` |
| Stacks.Stack.Valid | stack/src/stack.c:44-78 | in a valid stack `top` is null exactly when `size` is 0 |
| Stacks.StackNode.constructor | stack/src/stack.c:5-10 | a new node carries the given item and links to the given `next` node |
| Stacks.Stack.constructor | stack/src/stack.c:24-30 | a new stack is valid and empty, with null `top` and size 0 |
| Stacks.Push | stack/src/stack.c:44-53 | NULL gives 0; otherwise returns 1, the items become `[data] + s`, the size grows by one, and the new top links to the old one |
| Stacks.Pop | stack/src/stack.c:65-78 | NULL or an empty stack gives None and leaves the stack empty; otherwise returns `s[0]`, the most recently pushed item, the items become `s[1..]` and the size drops by one |
| Stacks.Destroy | stack/src/stack.c:96-110 | NULL gives 0; otherwise returns 1 and hands every item to `destroyData` once, top to bottom |
| Stacks.PushThenPop | stack/src/stack.c:44-78 | push then pop returns the pushed item and restores the items, size and top |

## Left out

- Memory: `malloc` and `free` are not modelled. Allocation always succeeds, except for the failed node allocation of `enqueue`, which is a parameter (`allocationFails`). Freed nodes are simply dropped from the ghost node sequence.
- Callbacks: what `compareData` and `destroyData` do is left to the caller. The comparator is an arbitrary function, required to be a total preorder by the sort and by `insertSortedLL`. `destroyData` is represented by the sequence of items it receives.
- `printQueue`, and the queue's `printData` callback given to `createQueue`, are console output and are not part of this model.
- Stacks.Destroy: assumes a `destroyData` callback is present. destroyStack calls it without a NULL check, so a stack created without one would crash.
- LinkedLists.Destroy: assumes a `destroyData` callback is present. destroyLinkedList calls it without a NULL check (linkedList/src/linkedList.c:406), so a list created without one would crash; the model cannot represent a missing callback.
- Counters are unbounded `nat`; C `int` overflow of `length` and `size` is not modelled.
- LinkedLists.Get: states the item found, not the number of steps, so the choice of walking from the tail past the middle is only a performance detail here.
- LinkedLists.MergeChains: the dummy head node carries one of the runs' items instead of NULL. Its item is never read, and it is dropped after the merge.
- LinkedLists.Sort: states sortedness and permutation through its `sorted` flag under `Valid()`, and through `MergeSort`, whose properties `MergeSortSorted` proves. It does not state them as separate clauses of its own.
- LinkedLists.Sort: the sort is not stable (`MergeSortSwapsTies`). Sorting an already sorted list is proved to change nothing only when the list has no ties (`MergeSortStrictlyIncreasing`).
- LinkedLists.InsertSorted: the C loop links the new node inside the loop and returns from there. The model leaves the loop with `break` and links the node afterwards in `LinkBefore`, which has the same effect.
- LinkedLists.LinkAfter, LinkedLists.Unlink, LinkedLists.LinkBefore, LinkedLists.LinkNext, LinkedLists.SortParts and LinkedLists.SortLinks are parts of a C function split out as methods of their own. Each has a contract so that the proofs stay small; the C code has no such functions.
- Concurrency: there is none in the code.
