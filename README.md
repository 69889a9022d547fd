# DSA in Java, modelled in Dafny

This project models the data-structure and algorithm classes of the
*DSA in Java* collection and proves what each class promises. Each part
keeps the form of its Java code: classes whose fields the Java code
rewrites are Dafny classes with `modifies` clauses, loops stay loops
with their invariants, and the pure helpers become functions. Every
operation is proved against a specification function or predicate, and
lemmas prove that specification's properties.

- **Java semantics** (`Java`). The exceptions the classes throw are
  values, so a throwing operation returns an `Outcome` or `Result`.
  32-bit arithmetic is written out for `String.hashCode`, `Math.abs` and
  `%`; the places where Java's `int` would overflow and the model's
  unbounded integers do not are listed under "Left out".
- **Linear structures**:
  - the dynamic array, with its grow and shrink policy;
  - the fixed and resizing array stacks;
  - the fixed and resizing circular-buffer queues, sharing one window
    model (`CircularBuffer`);
  - the linked stack and queue;
  - the singly linked list and the head-and-tail linked list. Their heap
    nodes are tracked through a ghost spine (`ListNode`).
  - For each structure the abstract contents are a sequence, and every
    operation states the new contents and its exception cases. The demo
    drivers' scenarios are proved as concrete runs (`StackMain`,
    `QueueMain`, `LinkedListsMain`).
- **Hash table** (`HashTable`). Separate chaining with insertion at the
  front of a bucket. It covers:
  - the Division hash over `String.hashCode`;
  - `isPrime` and `nextPrime`;
  - rehashing into the next prime from double the bucket count once one
    more entry would bring the load to 0.75;
  - `put`, `get`, `remove` and `clear`, proved against a map of key to
    value.
- **Sorting**:
  - bubble sort (with early exit), selection sort and insertion sort;
  - merge sort with an auxiliary array;
  - iterative and recursive heap sort (`Heap`);
  - Hoare and Lomuto quick sort.
  - All work in place on an `array<int>`. Each is proved to leave the
    array sorted and a permutation of its input (`Sorting`).
- **Binary trees**:
  - a pure tree value and the in-order, pre-order, post-order and
    breadth-first traversals, each iterative loop proved equal to its
    recursive definition;
  - `BstUtils`;
  - the iterative and recursive binary search trees;
  - the AVL tree;
  - the red-black tree with its shared sentinel.
  - The linked trees live in arenas: maps from node references to
    slots, with a ghost tree the arena is proved to hold. Each operation
    is proved to keep search order and the key set change it promises.
    For AVL that includes cached heights and balance. For red-black that
    includes the colour rules and equal black heights.
- **Union-find**:
  - the array union-find with path compression and union by rank
    (`UnionFind`), proved against a partition of labels;
  - the map union-find of Kruskal's algorithm (`KruskalUnionFind`).
- **Graphs**. Vertices are identified by their labels.
  - Kruskal's `buildMst`: a stable weight sort followed by the
    union-find scan.
  - Prim's `buildMst`: the sorted-array edge queue, plus the list and
    matrix graphs.
  - Dijkstra's `computePaths` and `getShortestPathTo`: the sorted-array
    distance queue, plus the directed list and matrix graphs.
  - Depth-first (stack and recursive) and breadth-first traversals over
    the explorable list and matrix graphs.
  - The two graphs of the traversal demo.

Java's library collections become Dafny values: `HashMap` is a `map`,
`List` and `ArrayDeque` are `seq`, and `HashSet` is a `set`. A graph
algorithm reads a graph through a value view of the graph object: its
vertices, plus the neighbour or edge lists in the order the Java
iteration yields them.

## Model

| member | source | states |
|---|---|---|
| ListNode.Node.constructor | src/lineards/linkedlist/Node.java:10-12 | a new node holds the given character and links to nothing |
| ListNode.Values | src/lineards/linkedlist/Node.java:6-13 | the characters of a node sequence are its nodes' `data`, position by position |
| ListNode.ChainTail | src/lineards/linkedlist/LinkedList.java:89-94 | the chain after the first node is the chain reached from its `next` |
| ListNode.LinkedEnd | src/lineards/linkedlist/LinkedList.java:62-64 | in a linked chain a node's `next` is null exactly when it is the last node |
| ListNode.DistinctRemove | src/lineards/linkedlist/LinkedList.java:98 | unlinking one node leaves the other nodes distinct |
| ListNode.DistinctInsert | src/lineards/linkedlist/LinkedList.java:44-46 | linking in a fresh node keeps the chain free of repeated nodes |
| ListNode.LinkedAfterUnlink | src/lineards/linkedlist/LinkedList.java:98 | after `pred.next = temp.next` the remaining nodes are linked in order, the last to null |
| ListNode.LinkedAfterInsert | src/lineards/linkedlist/LinkedList.java:44-46 | after `node.next = pred.next; pred.next = node` the chain runs through the new node |
| ListNode.LinkedAfterCut | src/lineards/linkedlist/LinkedList.java:121 | after `pred.next = null` the nodes up to `pred` form a null-terminated list |
| ListNode.FirstIndex | src/lineards/linkedlist/LinkedList.java:39-42 | the position the search loop stops at: inside the list exactly when the value occurs, holding it, with no earlier occurrence |
| ListNode.RemoveAt | src/lineards/linkedlist/LinkedList.java:98 | removing position `i` keeps the elements before it and shifts those after it down by one |
| ListNode.InsertAfterAt | src/lineards/linkedlist/LinkedList.java:44-46 | inserting after position `i` puts the value at `i + 1`, keeps the prefix and shifts the rest up by one |
| ListNode.EndsAfterRemove | src/lineards/linkedlist/DoubleEndedLinkedList.java:127-131 | dropping the node after `k` keeps the first node; the last node is the old last one, or node `k` when the dropped node was last |
| ListNode.EndsAfterInsert | src/lineards/linkedlist/DoubleEndedLinkedList.java:56-61 | linking a node after `k` keeps the first node; the last node is the old last one, or the new node when it went after the last |
| ListNode.ValuesRemove | src/lineards/linkedlist/LinkedList.java:98 | unlinking node `i` removes exactly character `i` from the contents |
| ListNode.ValuesInsert | src/lineards/linkedlist/LinkedList.java:44-46 | linking a node in after position `k` inserts exactly its character after position `k` |
| ListNode.DeleteLater | src/lineards/linkedlist/DoubleEndedLinkedList.java:120-134 | no contract; defines the search from position 1 on: the first later occurrence removed, or `NoSuchElementException` and no change |
| ListNode.DeleteByValueIntended | src/lineards/linkedlist/DoubleEndedLinkedList.java:102-135 | no contract; defines deleting the first occurrence: that element removed, or `NoSuchElementException` and no change for an empty list or an absent value |
| ListNode.DeleteLaterMatches | src/lineards/linkedlist/DoubleEndedLinkedList.java:110-134 | when the head does not hold the value, deleting from position 1 on is deleting the first occurrence |
| ListNode.RemoveInserted | src/lineards/linkedlist/LinkedList.java:38-50 | removing the element just inserted after `i` gives back the original contents (insert and delete are inverse) |
| ListNode.FindFirst | src/lineards/linkedlist/LinkedList.java:39-42 | the walk stops at the first node holding the value, or at null when no node holds it |
| ListNode.FindLast | src/lineards/linkedlist/LinkedList.java:61-64 | the walk stops at the last node of the chain |
| ListNode.FindLater | src/lineards/linkedlist/LinkedList.java:89-94 | `temp` stops at the first node after the head holding the value, or at null, with `pred` the node before it |
| ListNode.FindSecondLast | src/lineards/linkedlist/LinkedList.java:115-120 | on two or more nodes, `pred` and `temp` stop at the second-last and the last node |
| ListNode.LinkAfter | src/lineards/linkedlist/LinkedList.java:44-46 | a fresh node holding the value is linked in right after `pred`; the chain stays linked and distinct |
| ListNode.LinkIn | src/lineards/linkedlist/DoubleEndedLinkedList.java:57-58 | the two link writes splice an outside node in after `pred`, keeping the chain linked and distinct |
| ListNode.UnlinkAfter | src/lineards/linkedlist/LinkedList.java:98 | `pred.next` becomes the node after `temp` (or null) and `temp` drops out; the chain stays linked and distinct |
| ListNode.CutAfter | src/lineards/linkedlist/LinkedList.java:121 | the chain ends at `pred` and stays linked and distinct |
| ListNode.PrintList | src/lineards/linkedlist/LinkedListsMain.java:73-80 | the walk from `head` shows exactly the list's characters, in order |
| LinkedList.DeleteByValueAsWritten | src/lineards/linkedlist/LinkedList.java:81-102 | no contract; defines the outcome and contents of `deleteByValue` as written: a matching head is unlinked and the search still runs over the rest |
| LinkedList.DeleteLastAsWritten | src/lineards/linkedlist/LinkedList.java:107-122 | no contract; defines the outcome and contents of `deleteLast` as written: a one-node list is emptied and then throws `NullPointerException` |
| LinkedList.DeleteLastIntended | src/lineards/linkedlist/LinkedList.java:104-122 | no contract; defines `deleteLast` as its documentation states it: the last element goes, and only an empty list throws |
| LinkedList.DeleteByValueAgrees | src/lineards/linkedlist/LinkedList.java:81-102 | when the list is empty or its head does not hold the value, the written `deleteByValue` behaves as intended |
| LinkedList.DeleteByValueOnlyNode | src/lineards/linkedlist/LinkedList.java:85-90 | on the one-node list holding the value, the written `deleteByValue` throws `NullPointerException` where the intended one empties the list |
| LinkedList.DeleteByValueHeadOnly | src/lineards/linkedlist/LinkedList.java:85-101 | a head match with no later occurrence: the head is deleted and `NoSuchElementException` is still thrown |
| LinkedList.DeleteByValueHeadAndLater | src/lineards/linkedlist/LinkedList.java:85-98 | a head match with a later occurrence: both occurrences are deleted |
| LinkedList.DeleteLastAgrees | src/lineards/linkedlist/LinkedList.java:107-122 | on lists of any length but one, the written `deleteLast` behaves as intended; on one node it throws `NullPointerException` where it should empty the list |
| LinkedList.LinkedList.constructor | src/lineards/linkedlist/LinkedList.java:8-10 | a new list is empty |
| LinkedList.LinkedList.IsEmpty | src/lineards/linkedlist/LinkedList.java:17-19 | true exactly when the list has no characters |
| LinkedList.LinkedList.InsertFirst | src/lineards/linkedlist/LinkedList.java:25-29 | the value is prepended to the contents |
| LinkedList.LinkedList.InsertAfter | src/lineards/linkedlist/LinkedList.java:38-50 | succeeds exactly when the predecessor value occurs; then the value is inserted right after its first occurrence, otherwise `NoSuchElementException` and no change |
| LinkedList.LinkedList.InsertLast | src/lineards/linkedlist/LinkedList.java:56-66 | the value is appended to the contents |
| LinkedList.LinkedList.DeleteFirst | src/lineards/linkedlist/LinkedList.java:71-76 | an empty list throws `NoSuchElementException` and is unchanged; otherwise the first character goes |
| LinkedList.LinkedList.DeleteByValue | src/lineards/linkedlist/LinkedList.java:81-102 | outcome and new contents are those of the written `deleteByValue` (see Findings) |
| LinkedList.LinkedList.DeleteByValueCorrected | src/lineards/linkedlist/LinkedList.java:81-102 | outcome and new contents are those of deleting the first occurrence, with `NoSuchElementException` and no change when there is none |
| LinkedList.LinkedList.DeleteLaterOccurrence | src/lineards/linkedlist/LinkedList.java:89-101 | the first occurrence after the head is removed, or `NoSuchElementException` with no change |
| LinkedList.LinkedList.DeleteLast | src/lineards/linkedlist/LinkedList.java:107-122 | outcome and new contents are those of the written `deleteLast` (see Findings) |
| LinkedList.LinkedList.DeleteLastCorrected | src/lineards/linkedlist/LinkedList.java:107-122 | the last character is removed; only an empty list throws `NoSuchElementException` |
| LinkedList.LinkedList.DropLast | src/lineards/linkedlist/LinkedList.java:115-121 | on two or more nodes, the last character is removed |
| DoubleEndedLinkedList.EndsAfterLinkIn | src/lineards/linkedlist/DoubleEndedLinkedList.java:56-61 | after a node is linked in after `k`, `head` still starts the chain and `tail` (moved to the new node when `k` was last) ends it |
| DoubleEndedLinkedList.DoubleEndedLinkedList.constructor | src/lineards/linkedlist/DoubleEndedLinkedList.java:11-14 | a new list is empty, with `head` and `tail` both null |
| DoubleEndedLinkedList.DoubleEndedLinkedList.IsEmpty | src/lineards/linkedlist/DoubleEndedLinkedList.java:21-23 | true exactly when the list has no characters |
| DoubleEndedLinkedList.DoubleEndedLinkedList.SingleNode | src/lineards/linkedlist/DoubleEndedLinkedList.java:93 | on a non-empty list `head == tail` holds exactly when the list has one node |
| DoubleEndedLinkedList.DoubleEndedLinkedList.TailAt | src/lineards/linkedlist/DoubleEndedLinkedList.java:59 | the node at a position is `tail` exactly when it is the last one |
| DoubleEndedLinkedList.DoubleEndedLinkedList.InsertFirst | src/lineards/linkedlist/DoubleEndedLinkedList.java:29-40 | the value is prepended; `head` and `tail` stay the ends of the chain |
| DoubleEndedLinkedList.DoubleEndedLinkedList.InsertAfter | src/lineards/linkedlist/DoubleEndedLinkedList.java:49-65 | succeeds exactly when the predecessor value occurs; then the value goes right after its first occurrence and `tail` moves when that was the last node; otherwise `NoSuchElementException` and no change |
| DoubleEndedLinkedList.DoubleEndedLinkedList.InsertLast | src/lineards/linkedlist/DoubleEndedLinkedList.java:71-82 | the value is appended after `tail`, which moves to it |
| DoubleEndedLinkedList.DoubleEndedLinkedList.DeleteFirst | src/lineards/linkedlist/DoubleEndedLinkedList.java:87-100 | an empty list throws `NoSuchElementException` and is unchanged; otherwise the first character goes, both ends null when it was the only one |
| DoubleEndedLinkedList.DoubleEndedLinkedList.DeleteByValue | src/lineards/linkedlist/DoubleEndedLinkedList.java:105-135 | the first occurrence is deleted, `tail` kept right; an empty list or an absent value throws `NoSuchElementException` and changes nothing |
| DoubleEndedLinkedList.DoubleEndedLinkedList.DeleteHead | src/lineards/linkedlist/DoubleEndedLinkedList.java:110-117 | a matching head is removed, emptying a one-node list |
| DoubleEndedLinkedList.DoubleEndedLinkedList.DeleteLaterOccurrence | src/lineards/linkedlist/DoubleEndedLinkedList.java:120-134 | the first occurrence after the head is removed, or `NoSuchElementException` with no change |
| DoubleEndedLinkedList.DoubleEndedLinkedList.UnlinkNext | src/lineards/linkedlist/DoubleEndedLinkedList.java:128-131 | the node after `pred` is removed from the contents and `tail` moves back to `pred` when it was the last |
| DoubleEndedLinkedList.DoubleEndedLinkedList.DeleteLast | src/lineards/linkedlist/DoubleEndedLinkedList.java:140-160 | an empty list throws `NoSuchElementException` and is unchanged; otherwise the last character goes and `tail` moves to the second-last node |
| DoubleEndedLinkedList.DoubleEndedLinkedList.FindBeforeTail | src/lineards/linkedlist/DoubleEndedLinkedList.java:151-154 | on two or more nodes the walk stops at the node whose successor is `tail` |
| LinkedListsMain.DemoLinkedList | src/lineards/linkedlist/LinkedListsMain.java:12-40 | the demo's steps all succeed and leave B C |
| LinkedListsMain.DemoDoubleEndedLinkedList | src/lineards/linkedlist/LinkedListsMain.java:42-70 | the demo's steps all succeed and leave 2 1 |
| DynamicArray.ShrunkCapacity | src/lineards/array/custom/DynamicArray.java:119-123 | no contract; defines the capacity `shrinkCapacity` leaves: `max(capacity / 2, 1)` when at most a quarter is used and the capacity exceeds 1, else the capacity |
| DynamicArray.DynamicArray.constructor | src/lineards/array/custom/DynamicArray.java:19-26 | past the argument check: an empty array whose buffer and `capacity` are the given capacity |
| DynamicArray.DynamicArray.Get | src/lineards/array/custom/DynamicArray.java:31-34 | the element at `index` inside `[0, size)`; `IndexOutOfBoundsException` exactly outside it |
| DynamicArray.DynamicArray.Set | src/lineards/array/custom/DynamicArray.java:39-42 | replaces exactly the element at `index`, keeping size and capacity; outside `[0, size)` it throws `IndexOutOfBoundsException` and changes nothing |
| DynamicArray.DynamicArray.Add | src/lineards/array/custom/DynamicArray.java:47-50 | the value is appended; the capacity doubles exactly when the buffer was full |
| DynamicArray.DynamicArray.AddAt | src/lineards/array/custom/DynamicArray.java:55-64 | inside `[0, size)` the value is inserted at `index` with the tail shifted right and the capacity doubled when full; any other index, `size` included, throws `IndexOutOfBoundsException` and changes nothing |
| DynamicArray.DynamicArray.ShiftRight | src/lineards/array/custom/DynamicArray.java:61 | the cells `[index, size)` move one place right; the cells up to `index` keep their values |
| DynamicArray.DynamicArray.Remove | src/lineards/array/custom/DynamicArray.java:69-80 | inside `[0, size)` the element at `index` is removed and the capacity is then shrunk as `shrinkCapacity` does; otherwise `IndexOutOfBoundsException` and no change |
| DynamicArray.DynamicArray.ShiftLeft | src/lineards/array/custom/DynamicArray.java:71-77 | the cells after `index` move one place left over it; the cells before `index` keep their values |
| DynamicArray.DynamicArray.Size | src/lineards/array/custom/DynamicArray.java:85-87 | the number of elements |
| DynamicArray.DynamicArray.EnsureCapacity | src/lineards/array/custom/DynamicArray.java:110-114 | keeps the elements and leaves a free cell; the capacity doubles exactly when the buffer was full, and otherwise the buffer is untouched |
| DynamicArray.DynamicArray.ShrinkCapacity | src/lineards/array/custom/DynamicArray.java:119-123 | keeps the elements; the capacity becomes `max(capacity / 2, 1)` when at most a quarter is used and it exceeds 1, and stays otherwise |
| DynamicArray.DynamicArray.Resize | src/lineards/array/custom/DynamicArray.java:132-137 | a fresh buffer of the new capacity holding the same elements |
| DynamicArray.Create | src/lineards/array/custom/DynamicArray.java:19-26 | `IllegalArgumentException` exactly when the capacity is below 1; otherwise a fresh empty array of that capacity |
| DynamicArray.Demo | src/lineards/array/custom/DynamicArrayMain.java:7-44 | the demonstration ends with the elements 50, 60, size 2 and capacity 5 |
| DynamicArray.DemoGrowAndShrink | src/lineards/array/custom/DynamicArrayMain.java:30-43 | from 10, 20, 30 in capacity 5, adding 40, 50, 60 and removing index 0 four times leaves 50, 60 in capacity 5 |
| DynamicArrayStack.CapacityAfterPop | src/lineards/stack/DynamicArrayStack.java:45-47 | no contract; defines the capacity a pop leaves: half when the remaining count is positive and a quarter of the capacity, else the capacity |
| DynamicArrayStack.DynamicArrayStack.constructor | src/lineards/stack/DynamicArrayStack.java:16-22 | past the argument check: an empty stack with an array of the given capacity |
| DynamicArrayStack.DynamicArrayStack.IsEmpty | src/lineards/stack/DynamicArrayStack.java:25-27 | true exactly when nothing is stacked |
| DynamicArrayStack.DynamicArrayStack.Push | src/lineards/stack/DynamicArrayStack.java:30-35 | the value goes on top; the array doubles exactly when it was full |
| DynamicArrayStack.DynamicArrayStack.Pop | src/lineards/stack/DynamicArrayStack.java:38-50 | on an empty stack `NoSuchElementException` and no change; otherwise the top is returned and removed, and the array is halved exactly when the remaining count is positive and a quarter of the capacity |
| DynamicArrayStack.DynamicArrayStack.Peek | src/lineards/stack/DynamicArrayStack.java:53-58 | the top element, or `NoSuchElementException` on an empty stack |
| DynamicArrayStack.DynamicArrayStack.Resize | src/lineards/stack/DynamicArrayStack.java:65-69 | a fresh array of the new capacity holding the same stack |
| DynamicArrayStack.Create | src/lineards/stack/DynamicArrayStack.java:16-22 | `IllegalArgumentException` exactly when the capacity is below 1; otherwise a fresh empty stack of that capacity |
| StaticArrayStack.Last | src/lineards/stack/StaticArrayStack.java:62 | no contract; defines the top element `data[top]` as the last of the stacked values |
| StaticArrayStack.StaticArrayStack.constructor | src/lineards/stack/StaticArrayStack.java:20-26 | past the argument check: an empty stack with an array of the given capacity |
| StaticArrayStack.StaticArrayStack.IsEmpty | src/lineards/stack/StaticArrayStack.java:29-31 | true exactly when nothing is stacked |
| StaticArrayStack.StaticArrayStack.IsFull | src/lineards/stack/StaticArrayStack.java:68-70 | true exactly when the stack holds as many elements as the array has cells |
| StaticArrayStack.StaticArrayStack.Push | src/lineards/stack/StaticArrayStack.java:40-46 | a full stack throws `IllegalStateException` and is unchanged; otherwise the value goes on top |
| StaticArrayStack.StaticArrayStack.Pop | src/lineards/stack/StaticArrayStack.java:49-55 | on an empty stack `NoSuchElementException` and no change; otherwise the top is returned and removed |
| StaticArrayStack.StaticArrayStack.Peek | src/lineards/stack/StaticArrayStack.java:58-63 | the top element, or `NoSuchElementException` on an empty stack |
| StaticArrayStack.Create | src/lineards/stack/StaticArrayStack.java:20-26 | `IllegalArgumentException` exactly when the capacity is below 1; otherwise a fresh empty stack of that capacity |
| LinkedListStack.Node.constructor | src/lineards/stack/LinkedListStack.java:23-25 | a new node holds the given character and links to nothing |
| LinkedListStack.Values | src/lineards/stack/LinkedListStack.java:16-26 | the characters of a node sequence are its nodes' `data`, position by position |
| LinkedListStack.LinkedListStack.constructor | src/lineards/stack/LinkedListStack.java:10-29 | a new stack is empty |
| LinkedListStack.LinkedListStack.IsEmpty | src/lineards/stack/LinkedListStack.java:32-34 | true exactly when nothing is stacked |
| LinkedListStack.LinkedListStack.Push | src/lineards/stack/LinkedListStack.java:37-43 | a fresh node holding the value becomes the top, above the old nodes |
| LinkedListStack.LinkedListStack.Pop | src/lineards/stack/LinkedListStack.java:46-53 | on an empty stack `NoSuchElementException` and no change; otherwise the top is returned and its node unlinked |
| LinkedListStack.LinkedListStack.Peek | src/lineards/stack/LinkedListStack.java:56-61 | the top element, or `NoSuchElementException` on an empty stack |
| LinkedListStack.PushThenPop | src/lineards/stack/Stack.java:17-30 | `push(v)` then `pop()` returns `v` and restores the stack, down to its nodes |
| StackMain.DemoStaticArrayStack | src/lineards/stack/StackMain.java:19-41 | pushing D on the full stack throws `IllegalStateException`; pop gives C, peek gives B, and the stack ends empty |
| StackMain.DemoDynamicArrayStack | src/lineards/stack/StackMain.java:43-60 | all four pushes succeed; pop gives Z, peek gives Y, and the stack ends empty |
| StackMain.DemoLinkedListStack | src/lineards/stack/StackMain.java:62-77 | pop gives 3, peek gives 2, and the stack ends empty |
| StaticArrayQueue.StaticArrayQueue.constructor | src/lineards/queue/StaticArrayQueue.java:20-28 | past the argument check: an empty queue with an array of the given capacity, `front = 0`, `rear = -1` |
| StaticArrayQueue.StaticArrayQueue.IsEmpty | src/lineards/queue/StaticArrayQueue.java:35-37 | true exactly when nothing is queued |
| StaticArrayQueue.StaticArrayQueue.IsFull | src/lineards/queue/StaticArrayQueue.java:44-46 | true exactly when every cell is in use |
| StaticArrayQueue.StaticArrayQueue.Enqueue | src/lineards/queue/StaticArrayQueue.java:53-60 | a full queue throws `IllegalStateException` and is unchanged; otherwise the value joins at the rear, in the wrapped cell after `rear` |
| StaticArrayQueue.StaticArrayQueue.Dequeue | src/lineards/queue/StaticArrayQueue.java:68-76 | on an empty queue `NoSuchElementException` and no change; otherwise the front is returned and removed, `front` wrapping on |
| StaticArrayQueue.StaticArrayQueue.Peek | src/lineards/queue/StaticArrayQueue.java:81-86 | the front element, or `NoSuchElementException` on an empty queue |
| StaticArrayQueue.Create | src/lineards/queue/StaticArrayQueue.java:20-28 | `IllegalArgumentException` exactly when the capacity is below 1; otherwise a fresh empty queue of that capacity |
| DynamicArrayQueue.CapacityAfterDequeue | src/lineards/queue/DynamicArrayQueue.java:67-69 | no contract; defines the capacity a dequeue leaves: `max(capacity / 2, 10)` when the rest is non-empty and a quarter of the capacity, else the capacity |
| DynamicArrayQueue.DynamicArrayQueue.constructor | src/lineards/queue/DynamicArrayQueue.java:14-22 | past the argument check: an empty queue with an array of the given capacity |
| DynamicArrayQueue.DynamicArrayQueue.IsEmpty | src/lineards/queue/DynamicArrayQueue.java:30-32 | true exactly when nothing is queued |
| DynamicArrayQueue.DynamicArrayQueue.Enqueue | src/lineards/queue/DynamicArrayQueue.java:40-49 | the value joins at the rear; the buffer doubles exactly when it was full |
| DynamicArrayQueue.DynamicArrayQueue.Dequeue | src/lineards/queue/DynamicArrayQueue.java:58-72 | on an empty queue `NoSuchElementException` and no change; otherwise the front is returned and removed, and the buffer becomes `max(capacity / 2, 10)` exactly when the rest is non-empty and a quarter of the capacity |
| DynamicArrayQueue.DynamicArrayQueue.Peek | src/lineards/queue/DynamicArrayQueue.java:78-83 | the front element, or `NoSuchElementException` on an empty queue |
| DynamicArrayQueue.DynamicArrayQueue.Resize | src/lineards/queue/DynamicArrayQueue.java:90-98 | a fresh buffer holding the queue in order from cell 0, with `front = 0` and `rear = size - 1` |
| DynamicArrayQueue.Create | src/lineards/queue/DynamicArrayQueue.java:14-22 | `IllegalArgumentException` exactly when the capacity is below 1; otherwise a fresh empty queue of that capacity |
| CircularBuffer.ModIsWrap | src/lineards/queue/StaticArrayQueue.java:57 | for `0 <= x < 2n`, Java's `x % n` is the wrapped cell index |
| CircularBuffer.Window | src/lineards/queue/StaticArrayQueue.java:11-15 | the queue a circular buffer holds has exactly `size` elements |
| CircularBuffer.WindowAppend | src/lineards/queue/StaticArrayQueue.java:57-59 | writing the wrapped cell after the window and growing it by one appends the written value |
| CircularBuffer.WindowAdvance | src/lineards/queue/StaticArrayQueue.java:72-74 | the front cell holds the first element, and moving `front` on by one (wrapping) drops exactly that element |
| CircularBuffer.WindowFromStart | src/lineards/queue/DynamicArrayQueue.java:92-97 | a window starting at cell 0 is the plain prefix of the buffer |
| LinkedListQueue.Node.constructor | src/lineards/queue/LinkedListQueue.java:18-20 | a new node holds the given character and links to nothing |
| LinkedListQueue.Values | src/lineards/queue/LinkedListQueue.java:14-21 | the characters of a node sequence are its nodes' `data`, position by position |
| LinkedListQueue.LinkedListQueue.constructor | src/lineards/queue/LinkedListQueue.java:9-24 | a new queue is empty, `front` and `rear` null |
| LinkedListQueue.LinkedListQueue.IsEmpty | src/lineards/queue/LinkedListQueue.java:32-34 | true exactly when nothing is queued |
| LinkedListQueue.LinkedListQueue.Enqueue | src/lineards/queue/LinkedListQueue.java:42-50 | a fresh node holding the value is linked in at the rear and becomes `rear` |
| LinkedListQueue.LinkedListQueue.Dequeue | src/lineards/queue/LinkedListQueue.java:59-69 | on an empty queue `NoSuchElementException` and no change; otherwise the front is returned and unlinked, and both ends are null once the queue is empty |
| LinkedListQueue.LinkedListQueue.Peek | src/lineards/queue/LinkedListQueue.java:75-80 | the front element, or `NoSuchElementException` on an empty queue |
| QueueMain.DemoStaticArrayQueue | src/lineards/queue/QueueMain.java:30-48 | on a static queue of capacity 5 the demo shows A, A, B, B, C, not empty, C, empty |
| QueueMain.DemoDynamicArrayQueue | src/lineards/queue/QueueMain.java:30-48 | on a dynamic queue of capacity 5 the demo shows A, A, B, B, C, not empty, C, empty |
| QueueMain.DemoLinkedListQueue | src/lineards/queue/QueueMain.java:30-48 | on a linked queue the demo shows A, A, B, B, C, not empty, C, empty |
| HashTable.IsPrime | src/hashtable/HashTable.java:108-118 | the result is true exactly when `number` is prime: trial division up to the square root finds a divisor of every composite and rejects everything at or below 1 |
| HashTable.NoSmallDivisor | src/hashtable/HashTable.java:112-117 | why stopping at `i * i > number` is sound: no divisor below `i` means no divisor at all |
| HashTable.SquareFits | src/hashtable/HashTable.java:112 | for every `number` below `46340 * 46340`, each square `i * i` the loop of `isPrime` tests lies in `[0, Integer.MAX_VALUE]`, so the Java test never wraps there |
| HashTable.NextPrime | src/hashtable/HashTable.java:99-105 | the result is the least prime at or above `start` (the search terminates because such a prime exists) |
| HashTable.PrimeAtLeast | src/hashtable/HashTable.java:99-105 | there is a prime at or above every bound, so the unbounded loop of `nextPrime` always returns |
| HashTable.LeastDivisorPrime | src/hashtable/HashTable.java:99-105 | the least divisor above 1 of any `m >= 2` is prime, the step that gives a prime above `s!` |
| HashTable.FactorialDivisible | src/hashtable/HashTable.java:99-105 | every `d` in `[1, n]` divides `n!`, so `n! + 1` has no divisor up to `n` |
| HashTable.Wrap32 | src/hashtable/HashTable.java:29 | the result is a 32-bit int, and a value already in range is left alone |
| HashTable.HashCode | src/hashtable/HashTable.java:29 | the string hash is always a 32-bit int |
| HashTable.HashFrom | src/hashtable/HashTable.java:29 | no contract beyond staying a 32-bit int; defines `String.hashCode` continued from `h`: `h = 31 * h + c` with 32-bit wrap-around |
| HashTable.JavaAbs | src/hashtable/HashTable.java:33 | no contract; defines `Math.abs` on ints, which returns `Integer.MIN_VALUE` unchanged |
| HashTable.JavaRem | src/hashtable/HashTable.java:33 | Java's truncating remainder agrees with the mathematical one on a non-negative dividend |
| HashTable.DivisionHashAsWritten | src/hashtable/HashTable.java:33 | no contract; defines the Division hash as written, `Math.abs(hashCode) % bucketArray.length` with Java's `abs` and truncating `%` |
| HashTable.DivisionHash | src/hashtable/HashTable.java:32-33 | the intended Division hash always names a valid bucket, `0 <= i < length` |
| HashTable.DivisionHashAgrees | src/hashtable/HashTable.java:33 | the code as written and the intended hash agree on every key whose hash code is not `Integer.MIN_VALUE` |
| HashTable.MinHashCodeSpelled | src/hashtable/HashTable.java:29 | the key `polygenelubricants` hashes to `Integer.MIN_VALUE` |
| HashTable.MinHashCodeIndex | src/hashtable/HashTable.java:33 | for that key and 5 buckets the code as written computes the index -3, outside the bucket array |
| HashTable.KeyIndex | src/hashtable/HashTable.java:216-225 | the position found is the first entry with the key, every earlier entry has another key, and the chain's length means absent |
| HashTable.Find | src/hashtable/HashTable.java:216-225 | the walk from the head stops at the first entry for the key, or reports none |
| HashTable.Delete | src/hashtable/HashTable.java:194-213 | reports true exactly when the chain holds the key, and then exactly that first entry is unlinked with the others kept in order; otherwise the chain is unchanged |
| HashTable.KeyIndexOf | src/hashtable/HashTable.java:216-225 | in a chain without repeated keys the first entry for a key is the one at its position |
| HashTable.PrependKeys | src/hashtable/HashTable.java:182-186 | `insertAtBeginning` of an absent key keeps keys distinct and moves every other key one place on |
| HashTable.UpdateKeys | src/hashtable/HashTable.java:59-61 | overwriting an entry's value keeps keys distinct and moves no key |
| HashTable.RemoveEntry | src/hashtable/HashTable.java:201-205 | unlinking entry `j` drops exactly that entry and keeps the rest in order |
| HashTable.RemoveEntryKeys | src/hashtable/HashTable.java:201-205 | unlinking keeps keys distinct, drops the removed key and keeps every other key |
| HashTable.TableLookup | src/hashtable/HashTable.java:126-134 | in a well-formed table the bucket of a key holds an entry for it exactly when the key is mapped, with the mapped value |
| HashTable.TableInsert | src/hashtable/HashTable.java:66-76 | prepending an entry for a new key to its bucket stores the map with that key added |
| HashTable.TableUpdate | src/hashtable/HashTable.java:57-61 | overwriting the value of a stored key in place stores the map with that key's value replaced |
| HashTable.TableRemove | src/hashtable/HashTable.java:142-154 | unlinking the entry of a stored key stores the map without that key |
| HashTable.EmptyTable | src/hashtable/HashTable.java:23 | an array of empty buckets stores the empty map |
| HashTable.MovedStart | src/hashtable/HashTable.java:82-86 | before the rehash loop nothing has been moved |
| HashTable.MovedStep | src/hashtable/HashTable.java:88-93 | each re-put entry is a mapping not yet moved, so the new table stays below the full count and no key is met twice |
| HashTable.MovedRow | src/hashtable/HashTable.java:86-95 | a finished old bucket hands over to the next |
| HashTable.MovedAll | src/hashtable/HashTable.java:86-95 | once every old bucket is walked the new table holds exactly the old mappings |
| HashTable.HashTable.constructor | src/hashtable/HashTable.java:17-25 | past the argument check: an empty table whose bucket count is the least prime at or above `capacity` |
| HashTable.HashTable.SetBucket | src/hashtable/HashTable.java:53-54 | writing one bucket changes no other |
| HashTable.HashTable.Hash | src/hashtable/HashTable.java:28-42 | the Division hash of a key is a valid bucket index of the current array |
| HashTable.HashTable.Size | src/hashtable/HashTable.java:157-159 | the count equals the number of stored keys |
| HashTable.HashTable.Get | src/hashtable/HashTable.java:126-134 | the stored value of `key`, or `null` exactly when the key is absent |
| HashTable.HashTable.Put | src/hashtable/HashTable.java:50-78 | afterwards `key` maps to `value` and every other mapping is kept; the array is replaced by one of `nextPrime(2 * length)` buckets exactly when the key is new and one more entry would bring the load factor to 0.75 |
| HashTable.HashTable.Rehash | src/hashtable/HashTable.java:81-96 | the same mappings and size in a fresh array whose bucket count is the least prime at or above twice the old one |
| HashTable.HashTable.Clear | src/hashtable/HashTable.java:84-85 | the start of `rehash`: a fresh array of empty buckets and a size of 0 |
| HashTable.HashTable.RehashChain | src/hashtable/HashTable.java:88-93 | re-putting one old chain, with no rehash inside, extends the moved mappings to the next bucket |
| HashTable.HashTable.Remove | src/hashtable/HashTable.java:142-154 | returns true exactly when `key` was stored; afterwards the key is gone, every other mapping is kept and a miss changes no bucket |
| HashTable.Create | src/hashtable/HashTable.java:17-25 | `IllegalArgumentException` exactly when the capacity is below 1; otherwise a fresh empty table with a prime bucket count at or above it |
| HashTableMain.SmallPrimes | src/hashtable/HashTableMain.java:15 | 5 and 11 are prime and 10 is not, which fixes the capacities of the demonstration |
| HashTableMain.FirstPhase | src/hashtable/HashTableMain.java:18-38 | after the first puts, the update and the removal the table holds Hydrogen and Helium, and the Helium lookup gives 4.0026 |
| HashTableMain.SecondPhase | src/hashtable/HashTableMain.java:41-42 | Boron triggers a rehash into 11 buckets; four elements are stored |
| HashTableMain.ThirdPhase | src/hashtable/HashTableMain.java:43-45 | the last three puts fit in 11 buckets, leaving seven elements |
| HashTableMain.Demo | src/hashtable/HashTableMain.java:8-49 | the demonstration looks up 4.0026 for Helium and ends with 11 buckets holding 7 entries |
| Sorting.SortedHeadIsMin | src/sorting/SelectionSort.java:10-28 | the first element of a sorted array is the minimum of its values |
| Sorting.SortedPermutationUnique | src/sorting/BubbleSort.java:10-28 | two sorted permutations of the same values are equal, so every sort in the collection reaches the same array from the same input |
| Sorting.SortedHeadsAgree | src/sorting/SelectionSort.java:10-28 | two sorted permutations of the same values share their first element |
| Sorting.TailBag | src/sorting/SelectionSort.java:10-28 | the values of a tail are the values without the head |
| Sorting.SortedJoin | src/sorting/BubbleSort.java:10-28 | a sorted prefix, a sorted suffix and nothing out of order across the split make a sorted array |
| Sorting.SplitAtPermutedPrefix | src/sorting/BubbleSort.java:13-22 | permuting the cells before a split keeps the split and the sorted rest |
| Sorting.PrefixPermutation | src/sorting/BubbleSort.java:13-22 | a permutation that keeps every cell from `k` on permutes the prefix before `k` |
| Sorting.JoinRanges | src/sorting/quick/QuickSortHoare.java:12-24 | two adjacent sorted ranges with nothing out of order across them form one sorted range |
| Sorting.RangePermutation | src/sorting/quick/QuickSortHoare.java:12-24 | a permutation that keeps every cell outside a range permutes the range |
| Sorting.LeqAcrossPermuted | src/sorting/quick/QuickSortHoare.java:21-22 | permuting each side of a split keeps the split |
| Sorting.Swap | src/sorting/quick/QuickSortHoare.java:68-72 | the two cells are exchanged, every other cell is kept, and the values are a permutation of the old ones |
| BubbleSort.BubbleSort | src/sorting/BubbleSort.java:10-28 | the array ends sorted and a permutation of its old contents |
| BubbleSort.Pass | src/sorting/BubbleSort.java:13-22 | one pass permutes `a[0..bound)`, keeps the rest, carries the largest value of the range to `a[bound-1]`, and swaps nothing only when the range was already sorted |
| SelectionSort.SelectionSort | src/sorting/SelectionSort.java:10-28 | the array ends sorted and a permutation of its old contents |
| SelectionSort.MinIndexFrom | src/sorting/SelectionSort.java:15-21 | the index found holds the minimum of `a[i..n)`, and it is the first such index since only a strictly smaller value moves it |
| InsertionSort.InsertionSort | src/sorting/InsertionSort.java:10-24 | the array ends sorted and a permutation of its old contents |
| InsertionSort.MoveBack | src/sorting/InsertionSort.java:18-22 | moving one element keeps the length |
| InsertionSort.MoveBackCells | src/sorting/InsertionSort.java:18-22 | the cells of the array after `a[i]` is moved to `j`: earlier cells keep, cells `j..i-1` shift right one, later cells keep |
| InsertionSort.MoveBackPermutation | src/sorting/InsertionSort.java:18-22 | moving an element keeps every value |
| InsertionSort.MoveBackSorted | src/sorting/InsertionSort.java:18-22 | dropping `a[i]` just after the last smaller-or-equal element of the sorted prefix leaves `a[0..i]` sorted |
| InsertionSort.Insert | src/sorting/InsertionSort.java:13-22 | one outer step makes `a[0..i]` sorted, permutes the array and moves nothing beyond `i` |
| InsertionSort.MovedBack | src/sorting/InsertionSort.java:13-22 | the cells the shift leaves are exactly the moved-back array, hence sorted up to `i` and a permutation |
| InsertionSort.ShiftGreater | src/sorting/InsertionSort.java:18-21 | the gap `j` is just after the last element not above `temp`; everything from `j` to `i-1` was above it and has moved right one cell; nothing else changes |
| MergeSort.Merge | src/sorting/MergeSort.java:63-82 | no contract; defines the merge of two runs: the smaller head first, the right head on a tie, then the rest of the run left over |
| MergeSort.MergePermutation | src/sorting/MergeSort.java:63-82 | the merge keeps every element of both runs |
| MergeSort.MergeSorted | src/sorting/MergeSort.java:63-82 | merging two sorted runs gives a sorted run of the combined length starting with one of the two heads |
| MergeSort.SortedCons | src/sorting/MergeSort.java:63-72 | a value no larger than a sorted run's head extends it sorted |
| MergeSort.MergeSort | src/sorting/MergeSort.java:10-16 | a non-null array ends sorted and a permutation of its old contents; an array of at most one element is untouched |
| MergeSort.MergeSortRec | src/sorting/MergeSort.java:26-38 | the range `[start..end]` ends sorted and permuted, and no cell outside it changes |
| MergeSort.SameSlice | src/sorting/MergeSort.java:85-87 | two arrays equal cell by cell on a range have the same slice there |
| MergeSort.CombineHalves | src/sorting/MergeSort.java:32-37 | sorting both halves and merging them sorts and permutes the range and keeps the rest |
| MergeSort.MergeLength | src/sorting/MergeSort.java:63-82 | the merge is as long as both runs together |
| MergeSort.MergeFromIsMerge | src/sorting/MergeSort.java:63-82 | the merge indexed by the loops' two read positions is the merge of the two remaining runs |
| MergeSort.TakeLeft | src/sorting/MergeSort.java:66-68 | taking the left head when it is strictly smaller (or the right run is done) is the next merge step |
| MergeSort.TakeRight | src/sorting/MergeSort.java:69-71 | taking the right head on a tie or when smaller (or the left run is done) is the next merge step |
| MergeSort.CopyRest | src/sorting/MergeSort.java:75-82 | copying the rest of one run extends the merged prefix in `aux` and writes nothing past it |
| MergeSort.MergeHeads | src/sorting/MergeSort.java:63-72 | the head loop stops when one run is exhausted, having written exactly the first part of the merge into `aux` |
| MergeSort.MergeOne | src/sorting/MergeSort.java:66-71 | one turn writes the next merge cell and advances exactly one run |
| MergeSort.MergeFromExhausted | src/sorting/MergeSort.java:75-82 | once one run is exhausted the rest of the merge is the rest of the other |
| MergeSort.RestCells | src/sorting/MergeSort.java:75-82 | the remaining merge cells are the rest of the left run followed by the rest of the right run |
| MergeSort.CopyTails | src/sorting/MergeSort.java:75-82 | the two trailing loops complete the merge in `aux` |
| MergeSort.MergeIntoAux | src/sorting/MergeSort.java:56-82 | `aux[0..itemsCount)` holds the merge of the two runs, and no later cell of `aux` changes |
| MergeSort.MergeBothParts | src/sorting/MergeSort.java:49-88 | `a[left..end]` becomes the merge of the two old runs and no other cell changes |
| QuickSortHoare.Sort | src/sorting/quick/QuickSortHoare.java:12-24 | `a[low..high]` ends sorted, the array is permuted, nothing outside the range changes, and a range of at most one cell is untouched |
| QuickSortHoare.CombineParts | src/sorting/quick/QuickSortHoare.java:13-23 | partitioning and sorting both parts sorts and permutes the range and keeps the rest |
| QuickSortHoare.Partition | src/sorting/quick/QuickSortHoare.java:36-59 | the index returned is in `[low, high)`, nothing in `a[low..j]` exceeds anything in `a[j+1..high]`, the range is permuted and nothing outside it changes |
| QuickSortHoare.ScanRight | src/sorting/quick/QuickSortHoare.java:43-45 | the scan stops at the first cell after `i` not below the pivot, never past the sentinel |
| QuickSortHoare.ScanLeft | src/sorting/quick/QuickSortHoare.java:48-50 | the scan stops at the last cell before `j` not above the pivot, never before the sentinel |
| QuickSortHoare.PartitionDone | src/sorting/quick/QuickSortHoare.java:52-54 | when the scans cross, `j` is in `[low, high)` and splits the range |
| QuickSortHoare.SwapStep | src/sorting/quick/QuickSortHoare.java:57 | swapping the two stopped cells restores the loop state, each index now the other's sentinel |
| QuickSortLomuto.Sort | src/sorting/quick/QuickSortLomuto.java:12-22 | `a[low..high]` ends sorted, the array is permuted, nothing outside the range changes, and a range of at most one cell is untouched |
| QuickSortLomuto.CombineParts | src/sorting/quick/QuickSortLomuto.java:13-21 | the pivot between two sorted parts, smaller values before it and the rest after, gives a sorted, permuted range |
| QuickSortLomuto.PivotThenSorted | src/sorting/quick/QuickSortLomuto.java:18-20 | the pivot followed by the sorted values after it (none below it) is sorted |
| QuickSortLomuto.Partition | src/sorting/quick/QuickSortLomuto.java:33-47 | the returned index holds the old `a[high]`, everything before it in the range is smaller, everything after is not, the range is permuted and nothing outside it changes |
| QuickSortLomuto.DividingStep | src/sorting/quick/QuickSortLomuto.java:39-42 | swapping a value below the pivot to the front grows the front part |
| QuickSortLomuto.DividingDone | src/sorting/quick/QuickSortLomuto.java:45-46 | the final swap puts the pivot between the two parts |
| Heap.RootIsMax | src/sorting/heap/HeapSortIterative.java:17-24 | the root of a max-heap is at least every value in it, so moving it behind the heap extracts the largest |
| Heap.LeavesAreHeaps | src/sorting/heap/HeapSortIterative.java:34 | cells from `size / 2` on have no children, which is why `buildHeap` starts at `size / 2 - 1` |
| Heap.AlmostHeapDone | src/sorting/heap/HeapSortIterative.java:51-52 | once the offending cell is at least its children the heap holds |
| Heap.StartAlmostHeap | src/sorting/heap/HeapSortIterative.java:34-36 | a heap below `i + 1` is a heap from `i` except at `i`, the precondition of `heapify` |
| Heap.GetLargestChildIndex | src/sorting/heap/HeapSortIterative.java:72-86 | the right child exactly when it lies below `size` and holds more than the left, otherwise the left; when below `size` it dominates every child |
| Heap.SwapRootStep | src/sorting/heap/HeapSortIterative.java:19-21 | swapping the root behind the heap puts the largest value at `i` and leaves a heap on `[0..i)` except at its root |
| Heap.SiftStep | src/sorting/heap/HeapSortRecursive.java:52-55 | moving the larger child up and the value down moves the only violation to the child and permutes the cells |
| Heap.ExtractStep | src/sorting/heap/HeapSortIterative.java:17-24 | one extraction step keeps the loop state: heap before `i`, the largest values sorted behind it, a permutation of the input |
| HeapSortIterative.Sort | src/sorting/heap/HeapSortIterative.java:13-25 | the array ends sorted and a permutation of its old contents |
| HeapSortIterative.BuildHeap | src/sorting/heap/HeapSortIterative.java:33-37 | `a[0..size)` becomes a max-heap of the same values; cells from `size` on are kept |
| HeapSortIterative.Heapify | src/sorting/heap/HeapSortIterative.java:46-62 | the sift-down restores the heap from `i` on, permutes the values and writes only cells in `[i..size)` |
| HeapSortIterative.SiftingStep | src/sorting/heap/HeapSortIterative.java:54-57 | one turn of the sift-down loop keeps its state |
| HeapSortIterative.SiftHole | src/sorting/heap/HeapSortIterative.java:48-59 | when the loop stops, putting `examined` into the hole gives a heap from `i` on that permutes the entry array |
| HeapSortRecursive.Sort | src/sorting/heap/HeapSortRecursive.java:13-25 | the array ends sorted and a permutation of its old contents |
| HeapSortRecursive.BuildHeap | src/sorting/heap/HeapSortRecursive.java:33-37 | `a[0..size)` becomes a max-heap of the same values; cells from `size` on are kept |
| HeapSortRecursive.Heapify | src/sorting/heap/HeapSortRecursive.java:46-57 | a heap from `lo` on that fails only at `i` becomes a heap from `lo` on, permuted, changing only cells in `[i..size)` |
| HeapSortRecursive.FrameAfterSwap | src/sorting/heap/HeapSortRecursive.java:52-55 | a swap followed by changes below the child permutes the array and changes only cells in `[i..size)` |
| BinaryTree.InOrder | src/binarytree/traversal/InOrderTraversal.java:58-70 | the recursive in-order walk visits as many keys as the tree has nodes |
| BinaryTree.PreOrder | src/binarytree/traversal/PreOrderTraversal.java:59-71 | the recursive pre-order walk visits one key per node, the root first |
| BinaryTree.PostOrder | src/binarytree/traversal/PostOrderTraversal.java:60-70 | the recursive post-order walk visits one key per node, the root last |
| BinaryTree.KeyBagKeys | src/binarytree/INode.java:11-25 | the keys counted with multiplicity are exactly the stored keys |
| BinaryTree.InOrderKeys | src/binarytree/traversal/InOrderTraversal.java:58-70 | the in-order walk visits every node exactly once, so it lists exactly the stored keys |
| BinaryTree.KeysOfInOrder | src/binarytree/traversal/InOrderTraversal.java:58-70 | the stored keys are the elements of the in-order walk |
| BinaryTree.SameInOrder | src/binarytree/traversal/InOrderTraversal.java:58-70 | trees with the same in-order walk hold the same keys, and one is a search tree exactly when the other is |
| BinaryTree.PreOrderKeys | src/binarytree/traversal/PreOrderTraversal.java:59-71 | the pre-order walk visits every node exactly once |
| BinaryTree.PostOrderKeys | src/binarytree/traversal/PostOrderTraversal.java:60-70 | the post-order walk visits every node exactly once |
| BinaryTree.IncreasingConcat | src/binarytree/traversal/InOrderTraversal.java:63-69 | increasing left keys, the node's key and increasing right keys, separated by it, form an increasing walk |
| BinaryTree.IncreasingSplit | src/binarytree/traversal/InOrderTraversal.java:63-69 | the parts of an increasing walk around a node's key are increasing and separated by it |
| BinaryTree.BstIffInOrderIncreasing | src/binarytree/traversal/InOrderTraversal.java:58-70 | a tree is a binary search tree exactly when its in-order walk is strictly increasing |
| BstUtils.Leftmost | src/binarytree/bst/BstUtils.java:16-23 | no contract; defines the key of the node reached by following left links as far as they go |
| BstUtils.LeftmostIsMinimum | src/binarytree/bst/BstUtils.java:16-23 | the leftmost key is stored, and in a search tree it is the smallest |
| BstUtils.MinValue | src/binarytree/bst/BstUtils.java:16-23 | the walk left returns the leftmost key, a stored key that in a search tree is the smallest |
| BstUtils.SearchRecursive | src/binarytree/bst/BstUtils.java:32-40 | a node found holds the key and is a subtree of the start; a found key is stored; in a search tree every stored key is found |
| InOrderTraversal.PushStep | src/binarytree/traversal/InOrderTraversal.java:42-43 | pushing a node and moving left keeps what the stack and the current node still owe |
| InOrderTraversal.IterativeInOrderTraverse | src/binarytree/traversal/InOrderTraversal.java:31-53 | the stack-based walk visits exactly the recursive in-order sequence |
| PreOrderTraversal.PushStep | src/binarytree/traversal/PreOrderTraversal.java:48-53 | pushing a present child adds its pre-order walk on top of what the stack owes; a null child adds nothing |
| PreOrderTraversal.PopStep | src/binarytree/traversal/PreOrderTraversal.java:41-53 | popping a node owes its key, then the walks of its left and right children |
| PreOrderTraversal.PushPresent | src/binarytree/traversal/PreOrderTraversal.java:48-53 | no null is ever pushed |
| PreOrderTraversal.IterativePreOrderTraverse | src/binarytree/traversal/PreOrderTraversal.java:31-54 | the stack-based walk visits exactly the recursive pre-order sequence |
| PostOrderTraversal.KeysOf | src/binarytree/traversal/PostOrderTraversal.java:52-54 | the second stack yields one key per node on it |
| PostOrderTraversal.PushStep | src/binarytree/traversal/PostOrderTraversal.java:45-50 | pushing a present child to the first stack adds its post-order walk; a null child adds nothing |
| PostOrderTraversal.MoveStep | src/binarytree/traversal/PostOrderTraversal.java:42-50 | moving the top of the first stack to the second and pushing its children keeps what both stacks owe together |
| PostOrderTraversal.IterativePostOrderTraverse | src/binarytree/traversal/PostOrderTraversal.java:31-55 | the two-stack walk visits exactly the recursive post-order sequence |
| BreadthFirstTraversal.Roots | src/binarytree/traversal/BreadthFirstTraversal.java:19-20 | one key per queued node |
| BreadthFirstTraversal.ForestSizeConcat | src/binarytree/traversal/BreadthFirstTraversal.java:16-27 | the node count of two queued runs is the sum of their counts |
| BreadthFirstTraversal.ForestBagConcat | src/binarytree/traversal/BreadthFirstTraversal.java:16-27 | the keys of two queued runs are the union of their keys |
| BreadthFirstTraversal.KidsSizeAndBag | src/binarytree/traversal/BreadthFirstTraversal.java:21-27 | the enqueued children of a node hold every node of its tree but itself |
| BreadthFirstTraversal.SideForest | src/binarytree/traversal/BreadthFirstTraversal.java:21-27 | a child enqueued when present holds exactly the nodes of that subtree |
| BreadthFirstTraversal.ChildrenSize | src/binarytree/traversal/BreadthFirstTraversal.java:16-27 | the next level holds every node of the current subtrees except their roots |
| BreadthFirstTraversal.ChildrenBag | src/binarytree/traversal/BreadthFirstTraversal.java:16-27 | the keys of the next level and the roots of this one are the keys of this level's subtrees |
| BreadthFirstTraversal.ChildrenAppend | src/binarytree/traversal/BreadthFirstTraversal.java:21-27 | appending a node to a level appends its children to the next level |
| BreadthFirstTraversal.LevelOrder | src/binarytree/traversal/BreadthFirstTraversal.java:14-30 | a non-null tree's level order starts with the root |
| BreadthFirstTraversal.LevelOrderVisitsOnce | src/binarytree/traversal/BreadthFirstTraversal.java:14-30 | the level order visits every node exactly once |
| BreadthFirstTraversal.LevelsBag | src/binarytree/traversal/BreadthFirstTraversal.java:14-30 | the level-by-level listing of a run of subtrees lists each of their nodes once |
| BreadthFirstTraversal.QueueStep | src/binarytree/traversal/BreadthFirstTraversal.java:19-27 | removing the front and enqueueing its children lowers the queued node count by one, so the loop ends |
| BreadthFirstTraversal.VisitStep | src/binarytree/traversal/BreadthFirstTraversal.java:19-27 | the front of the queue is the next unvisited node of the current level, and after it the queue holds the rest of the level and the children of its visited head |
| BreadthFirstTraversal.NextLevel | src/binarytree/traversal/BreadthFirstTraversal.java:18-28 | once a level is visited the queue holds exactly the next level |
| BreadthFirstTraversal.Start | src/binarytree/traversal/BreadthFirstTraversal.java:16-17 | the queue starts with the root, the whole first level |
| BreadthFirstTraversal.Finish | src/binarytree/traversal/BreadthFirstTraversal.java:18 | an empty queue means the whole level order has been visited |
| BreadthFirstTraversal.Visit | src/binarytree/traversal/BreadthFirstTraversal.java:19-27 | visiting the front node keeps the loop invariant |
| BreadthFirstTraversal.Traverse | src/binarytree/traversal/BreadthFirstTraversal.java:14-30 | the queue-based traversal visits exactly the level order of the tree, and nothing on a null root |
| TreePath.Extend | src/binarytree/bst/standard/BinarySearchTreeIterative.java:32-44 | one more step of the walk from a node leads to its child, and replacing there replaces that child |
| TreePath.ReplaceSame | src/binarytree/bst/standard/BinarySearchTreeIterative.java:32-44 | putting back the subtree a walk reached changes nothing |
| TreePath.SubAtBst | src/binarytree/bst/standard/BinarySearchTreeIterative.java:64-71 | every subtree a walk reaches in a search tree is a search tree |
| BstSpec.Insert | src/binarytree/bst/standard/BinarySearchTreeRecursive.java:31-51 | no contract; defines the tree `insertRecursive` returns: a new leaf where the descent falls off, the tree itself when it meets `key` |
| BstSpec.Delete | src/binarytree/bst/standard/BinarySearchTreeRecursive.java:65-89 | no contract; defines the tree `deleteRecursive` returns: a node with at most one child gives way to it, one with two children takes the least key of its right subtree, which is deleted there |
| BstSpec.InsertKeys | src/binarytree/bst/standard/BinarySearchTreeRecursive.java:31-51 | insertion adds exactly `key` to the stored keys |
| BstSpec.InsertBst | src/binarytree/bst/standard/BinarySearchTreeRecursive.java:31-51 | insertion keeps search-tree order |
| BstSpec.InsertFound | src/binarytree/bst/standard/BinarySearchTreeRecursive.java:45-49 | a duplicate key leaves the tree unchanged |
| BstSpec.DeleteKeys | src/binarytree/bst/standard/BinarySearchTreeRecursive.java:65-89 | on a search tree deletion removes exactly `key` from the stored keys and keeps search-tree order |
| BstSpec.DeleteMissed | src/binarytree/bst/standard/BinarySearchTreeRecursive.java:66 | a key the descent does not meet leaves the tree unchanged |
| BstSpec.DeleteLeftmost | src/binarytree/bst/standard/BinarySearchTreeRecursive.java:83-85 | deleting the least key of a search tree unlinks its leftmost node, which is what the iterative successor relinking does |
| BstArena.RefsInside | src/binarytree/bst/standard/Node.java:8-11 | the nodes of a linked tree are allocated and none is null; a non-empty tree contains its root node |
| BstArena.Frame | src/binarytree/bst/standard/Node.java:8-11 | a linked tree stays the same tree when none of its nodes changes |
| BstArena.Unique | src/binarytree/bst/standard/Node.java:8-11 | the links from a node spell out one tree only |
| BstArena.Join | src/binarytree/bst/standard/Node.java:8-11 | a node whose two disjoint child subtrees are linked trees is the root of their join |
| BstArena.RelinkLeft | src/binarytree/bst/standard/BinarySearchTreeRecursive.java:39 | `current.left = insertRecursive(...)` or the delete analogue makes `current` hold its node with the new left subtree |
| BstArena.RelinkRight | src/binarytree/bst/standard/BinarySearchTreeRecursive.java:43 | the mirror image for the right link |
| BstArena.Kept | src/binarytree/bst/standard/BinarySearchTreeRecursive.java:38-44 | the child subtree the recursion did not enter is still intact and disjoint from the rebuilt one |
| BstArena.SetLeft | src/binarytree/bst/standard/BinarySearchTreeIterative.java:124 | pointing a node's left link at a linked subtree makes it hold the node they form |
| BstArena.SetRight | src/binarytree/bst/standard/BinarySearchTreeIterative.java:121 | pointing a node's right link at a linked subtree makes it hold the node they form |
| BstArena.Rekey | src/binarytree/bst/standard/BinarySearchTreeRecursive.java:83 | overwriting a node's key makes it hold the node with the new key over the same nodes |
| BstArena.SetBoth | src/binarytree/bst/standard/BinarySearchTreeIterative.java:121-124 | pointing both links of a node at two disjoint linked subtrees makes it hold their join |
| BstArena.RefAt | src/binarytree/bst/standard/BinarySearchTreeIterative.java:64-71 | the node a walk reaches holds the subtree at that path, over nodes of the tree |
| BstArena.Step | src/binarytree/bst/standard/BinarySearchTreeIterative.java:144 | following a left or right link from the reached node reaches the matching child |
| BstArena.Climb | src/binarytree/bst/standard/BinarySearchTreeIterative.java:116-133 | a subtree rebuilt in place below an untouched path makes the root hold the whole tree with that subtree replaced |
| BstArena.Relink | src/binarytree/bst/standard/BinarySearchTreeIterative.java:127-133 | setting the parent's left or right link, as the side says, makes it hold its node with the new child |
| BstArena.Splice | src/binarytree/bst/standard/BinarySearchTreeIterative.java:127-133 | linking a rebuilt subtree under the parent the walk stopped at makes the root hold the tree with that subtree replaced |
| BstArena.SwapParts | src/binarytree/bst/standard/BinarySearchTreeIterative.java:127-133 | the nodes after the splice are the old ones with the old subtree's traded for the new subtree's |
| BstArena.MinValue | src/binarytree/bst/BstUtils.java:16-23 | the walk down the left links from a node returns the leftmost key of its tree |
| BstArena.SearchRecursive | src/binarytree/bst/BstUtils.java:32-40 | the node returned holds the subtree the value-level recursive search finds, null when it finds none |
| BinarySearchTreeIterative.BinarySearchTreeIterative.constructor | src/binarytree/bst/standard/BinarySearchTreeIterative.java:10-12 | an empty tree |
| BinarySearchTreeIterative.BinarySearchTreeIterative.Insert | src/binarytree/bst/standard/BinarySearchTreeIterative.java:20-51 | the tree becomes exactly the one the recursive insertion builds: the old keys plus `key`, still a search tree |
| BinarySearchTreeIterative.BinarySearchTreeIterative.Descend | src/binarytree/bst/standard/BinarySearchTreeIterative.java:32-44 | the walk stops at a node holding `key`, where insertion changes nothing, or falls off below `parent` on the side `key` lies, where the new leaf gives the inserted tree |
| BinarySearchTreeIterative.BinarySearchTreeIterative.Delete | src/binarytree/bst/standard/BinarySearchTreeIterative.java:54-135 | the tree becomes exactly the one the recursive deletion builds: the old keys without `key`, still a search tree |
| BinarySearchTreeIterative.BinarySearchTreeIterative.FindNode | src/binarytree/bst/standard/BinarySearchTreeIterative.java:60-71 | the walk stops at the node holding `key` or at null, with the parent it came from; deleting from the reached subtree and putting it back deletes from the whole tree |
| BinarySearchTreeIterative.BinarySearchTreeIterative.Unlink | src/binarytree/bst/standard/BinarySearchTreeIterative.java:83-134 | the leaf, one-child and two-child cases each yield the node's subtree without its key, over its own nodes, changing no other node |
| BinarySearchTreeIterative.BinarySearchTreeIterative.ReplaceBySuccessor | src/binarytree/bst/standard/BinarySearchTreeIterative.java:105-124 | the successor becomes the root of the node's subtree, holding the least key of the right subtree over the left subtree and the right subtree without its leftmost node |
| BinarySearchTreeIterative.BinarySearchTreeIterative.FindSuccessor | src/binarytree/bst/standard/BinarySearchTreeIterative.java:107-112 | the walk down left links of the right subtree stops at its leftmost node, which has no left child and holds the least key; its parent is the deleted node exactly when it is the right child |
| BinarySearchTreeIterative.BinarySearchTreeIterative.Detached | src/binarytree/bst/standard/BinarySearchTreeIterative.java:116-122 | after the successor's parent takes over its right subtree, the right subtree without the successor is intact and only its nodes changed |
| BinarySearchTreeIterative.BinarySearchTreeIterative.Rebuild | src/binarytree/bst/standard/BinarySearchTreeIterative.java:121-124 | the successor taking the deleted node's left subtree and the rest of the right subtree holds the rebuilt subtree over the old nodes |
| BinarySearchTreeIterative.BinarySearchTreeIterative.NewNode | src/binarytree/bst/standard/Node.java:13-16 | a fresh node with the key and no children; the tree is unchanged |
| BinarySearchTreeIterative.BinarySearchTreeIterative.Search | src/binarytree/bst/standard/BinarySearchTreeIterative.java:138-147 | the loop finds the node the recursive search finds: non-null exactly when `key` is stored, and then holding `key` |
| BinarySearchTreeRecursive.BinarySearchTreeRecursive.constructor | src/binarytree/bst/standard/BinarySearchTreeRecursive.java:10-12 | an empty tree |
| BinarySearchTreeRecursive.BinarySearchTreeRecursive.Insert | src/binarytree/bst/standard/BinarySearchTreeRecursive.java:20-22 | the tree becomes the inserted tree: the old keys plus `key`, still a search tree |
| BinarySearchTreeRecursive.BinarySearchTreeRecursive.InsertRecursive | src/binarytree/bst/standard/BinarySearchTreeRecursive.java:31-51 | returns the root of the subtree with `key` inserted, reusing its nodes and at most one new one, changing no node outside it |
| BinarySearchTreeRecursive.BinarySearchTreeRecursive.Delete | src/binarytree/bst/standard/BinarySearchTreeRecursive.java:54-56 | the tree becomes the deleted tree: the old keys without `key`, still a search tree |
| BinarySearchTreeRecursive.BinarySearchTreeRecursive.DeleteRecursive | src/binarytree/bst/standard/BinarySearchTreeRecursive.java:65-89 | returns the root of the subtree with `key` deleted, over its own nodes, changing no node outside it |
| BinarySearchTreeRecursive.BinarySearchTreeRecursive.Search | src/binarytree/bst/standard/BinarySearchTreeRecursive.java:92-94 | non-null exactly when `key` is stored, and then a node holding `key` |
| BinarySearchTreeRecursive.BinarySearchTreeRecursive.NewNode | src/binarytree/bst/standard/Node.java:13-16 | a fresh node with the key and no children; the tree is unchanged |
| AvlSpec.Balance | src/binarytree/bst/avl/AvlTree.java:95-99 | no contract; defines `getBalance` as left height minus right height, 0 for the empty tree |
| AvlSpec.RotateRight | src/binarytree/bst/avl/AvlTree.java:110-123 | no contract; defines the tree `rightRotate` returns: the left child becomes the root and the old root its right child, adopting the child's right subtree |
| AvlSpec.RotateLeft | src/binarytree/bst/avl/AvlTree.java:138-151 | no contract; defines the tree `leftRotate` returns, the mirror image of `rightRotate` |
| AvlSpec.InsertFix | src/binarytree/bst/avl/AvlTree.java:46-69 | no contract; defines the four rebalancing cases at the end of `insertRecursive`, chosen by the balance factor and the side the key went |
| AvlSpec.Insert | src/binarytree/bst/avl/AvlTree.java:31-70 | no contract; defines the tree `insertRecursive` returns: a new leaf, the subtree rebuilt and rebalanced on the way up, the tree itself for a duplicate |
| AvlSpec.DeleteFix | src/binarytree/bst/avl/AvlTree.java:189-212 | no contract; defines the four rebalancing cases at the end of `deleteRecursive`, chosen by the balance factors of the node and its heavy child |
| AvlSpec.Delete | src/binarytree/bst/avl/AvlTree.java:165-213 | no contract; defines the tree `deleteRecursive` returns: a node with at most one child gives way to it, one with two children takes its successor's key, and each rebuilt node is rebalanced |
| AvlSpec.Height | src/binarytree/bst/avl/AvlTree.java:80-84 | the height is -1 exactly for the empty tree and at least 0 for a node |
| AvlSpec.RotateRightKeepsOrder | src/binarytree/bst/avl/AvlTree.java:110-123 | a right rotation keeps the in-order key sequence |
| AvlSpec.RotateLeftKeepsOrder | src/binarytree/bst/avl/AvlTree.java:138-151 | a left rotation keeps the in-order key sequence |
| AvlSpec.InsertFixKeepsOrder | src/binarytree/bst/avl/AvlTree.java:46-69 | the rebalancing after an insertion keeps the in-order key sequence |
| AvlSpec.DeleteFixKeepsOrder | src/binarytree/bst/avl/AvlTree.java:189-212 | the rebalancing after a deletion keeps the in-order key sequence |
| AvlSpec.LeftThenRightKeepsOrder | src/binarytree/bst/avl/AvlTree.java:58-61 | the left-right double rotation keeps the in-order key sequence |
| AvlSpec.RightThenLeftKeepsOrder | src/binarytree/bst/avl/AvlTree.java:64-67 | the right-left double rotation keeps the in-order key sequence |
| AvlSpec.InsertKeys | src/binarytree/bst/avl/AvlTree.java:31-70 | insertion adds exactly `key` and keeps search-tree order |
| AvlSpec.DeleteFixKeys | src/binarytree/bst/avl/AvlTree.java:189-212 | rebalancing after a deletion keeps the keys, and the result is a search tree exactly when the input is |
| AvlSpec.DeleteLeftKeys | src/binarytree/bst/avl/AvlTree.java:170-171 | deleting in the left subtree removes exactly `key` and keeps order, given the subtree's deletion does |
| AvlSpec.DeleteRightKeys | src/binarytree/bst/avl/AvlTree.java:172-173 | deleting in the right subtree removes exactly `key` and keeps order, given the subtree's deletion does |
| AvlSpec.StrictlyAbove | src/binarytree/bst/avl/AvlTree.java:183-185 | after the least key is removed every remaining key is above it |
| AvlSpec.DeleteHereKeys | src/binarytree/bst/avl/AvlTree.java:176-185 | a node with two children taking its successor's key, which is then deleted on the right, removes exactly `key` and keeps order |
| AvlSpec.DeleteKeys | src/binarytree/bst/avl/AvlTree.java:165-213 | on a search tree deletion removes exactly `key` and keeps search-tree order |
| AvlSpec.SingleRight | src/binarytree/bst/avl/AvlTree.java:50-51 | a right rotation of a left-heavy node whose left child does not lean right gives a balanced tree as high or one lower, one lower when the child leans left |
| AvlSpec.SingleLeft | src/binarytree/bst/avl/AvlTree.java:54-55 | the mirror image for a right-heavy node |
| AvlSpec.DoubleRight | src/binarytree/bst/avl/AvlTree.java:58-61 | a left-right rotation of a left-heavy node whose left child leans right gives a balanced tree one lower |
| AvlSpec.DoubleLeft | src/binarytree/bst/avl/AvlTree.java:64-67 | the mirror image for a right-heavy node |
| AvlSpec.DeleteFixBalanced | src/binarytree/bst/avl/AvlTree.java:189-212 | rebalancing after a deletion gives a balanced tree as high or one lower, and changes nothing at a balanced node |
| AvlSpec.InsertFixBalanced | src/binarytree/bst/avl/AvlTree.java:46-69 | rebalancing after an insertion gives a balanced tree one lower at a node two out of balance, and changes nothing at a balanced node |
| AvlSpec.InsertBalanced | src/binarytree/bst/avl/AvlTree.java:31-70 | insertion into a balanced tree gives a balanced tree as high or one higher, and a grown subtree leans towards the side the key went |
| AvlSpec.InsertPresent | src/binarytree/bst/avl/AvlTree.java:40-43 | inserting a stored key into a balanced search tree changes nothing |
| AvlSpec.DeleteLeftBalanced | src/binarytree/bst/avl/AvlTree.java:170-171 | deleting in the left subtree keeps a balanced node balanced, as high or one lower, given the subtree's deletion does |
| AvlSpec.DeleteRightBalanced | src/binarytree/bst/avl/AvlTree.java:172-173 | deleting in the right subtree keeps a balanced node balanced, as high or one lower, given the subtree's deletion does |
| AvlSpec.DeleteBalanced | src/binarytree/bst/avl/AvlTree.java:165-213 | deletion from a balanced tree gives a balanced tree as high or one lower |
| AvlSpec.DeleteAbsent | src/binarytree/bst/avl/AvlTree.java:167-168 | deleting an absent key from a balanced search tree changes nothing |
| AvlSpec.InsertSafe | src/binarytree/bst/avl/AvlTree.java:50-67 | on a balanced tree every rotation after an insertion finds the child and grandchild it reads, so `current.left.key` and `current.right.key` are never read from null |
| AvlArena.CachedSplit | src/binarytree/bst/avl/AvlNode.java:10-13 | a node storing its heights has both subtrees storing theirs |
| AvlArena.CachedFrame | src/binarytree/bst/avl/AvlNode.java:10-13 | a linked tree whose nodes and heights did not change keeps its stored heights |
| AvlArena.CachedHeight | src/binarytree/bst/avl/AvlTree.java:80-84 | a stored height is the true height of the node's subtree |
| AvlArena.CachedUp | src/binarytree/bst/avl/AvlTree.java:125-127 | storing the true height at a node whose subtrees store theirs makes the whole subtree store its heights |
| AvlArena.RightRotation | src/binarytree/bst/avl/AvlTree.java:110-123 | after the rotation's links and two height updates the former left child roots the rotated tree over the same nodes with every height stored, and no other node changes |
| AvlArena.LeftRotation | src/binarytree/bst/avl/AvlTree.java:138-151 | the mirror image for the left rotation |
| AvlArena.RelinkCached | src/binarytree/bst/avl/AvlTree.java:37-39 | pointing `current.left` or `current.right` at a rebuilt subtree storing its heights keeps both subtrees of `current` storing theirs |
| AvlArena.LeftRightRotation | src/binarytree/bst/avl/AvlTree.java:58-61 | after `current.left = leftRotate(current.left)` and `rightRotate(current)` the former inner grandchild roots the rotated tree over the same nodes with every height stored, and nothing outside changes |
| AvlArena.LeftRightInner | src/binarytree/bst/avl/AvlTree.java:59 | after the first rotation and the relink, `current` roots the half-rotated tree over the same nodes and nothing outside changes |
| AvlArena.RightLeftRotation | src/binarytree/bst/avl/AvlTree.java:64-67 | the mirror image of the left-right case |
| AvlArena.RightLeftInner | src/binarytree/bst/avl/AvlTree.java:65 | after the first rotation and the relink, `current` roots the half-rotated tree over the same nodes and nothing outside changes |
| AvlTree.AvlTree.constructor | src/binarytree/bst/avl/AvlTree.java:10-12 | an empty tree |
| AvlTree.AvlTree.GetHeightCached | src/binarytree/bst/avl/AvlTree.java:80-84 | where heights are stored, `getHeight` gives the true height, -1 for null |
| AvlTree.AvlTree.GetBalanceCached | src/binarytree/bst/avl/AvlTree.java:95-99 | where both subtrees store their heights, `getBalance` gives the true balance factor |
| AvlTree.AvlTree.UpdateHeight | src/binarytree/bst/avl/AvlTree.java:125-127 | the node stores its true height and no link changes |
| AvlTree.AvlTree.RightRotate | src/binarytree/bst/avl/AvlTree.java:110-123 | the new root is the old left child, the links are those of the right rotation, and the two touched nodes store the heights of their new subtrees |
| AvlTree.AvlTree.LeftRotate | src/binarytree/bst/avl/AvlTree.java:138-151 | the new root is the old right child, the links are those of the left rotation, and the two touched nodes store the heights of their new subtrees |
| AvlTree.AvlTree.LeftRightRotate | src/binarytree/bst/avl/AvlTree.java:58-61 | the result roots the left-right rotated tree over the same nodes, every height stored, nothing outside changed |
| AvlTree.AvlTree.RightLeftRotate | src/binarytree/bst/avl/AvlTree.java:64-67 | the result roots the right-left rotated tree over the same nodes, every height stored, nothing outside changed |
| AvlTree.AvlTree.InsertFixup | src/binarytree/bst/avl/AvlTree.java:46-69 | the subtree ends as the rebalanced tree after an insertion, over the same nodes, every height stored |
| AvlTree.AvlTree.InsertFixupLeftHeavy | src/binarytree/bst/avl/AvlTree.java:50-61 | the left-heavy cases end as the rebalanced tree over the same nodes |
| AvlTree.AvlTree.InsertFixupRightHeavy | src/binarytree/bst/avl/AvlTree.java:54-67 | the right-heavy cases end as the rebalanced tree over the same nodes |
| AvlTree.AvlTree.DeleteFixup | src/binarytree/bst/avl/AvlTree.java:189-212 | the subtree ends as the rebalanced tree after a deletion, over the same nodes, every height stored |
| AvlTree.AvlTree.DeleteFixupLeftHeavy | src/binarytree/bst/avl/AvlTree.java:193-200 | the left-heavy cases end as the rebalanced tree over the same nodes |
| AvlTree.AvlTree.DeleteFixupRightHeavy | src/binarytree/bst/avl/AvlTree.java:203-210 | the right-heavy cases end as the rebalanced tree over the same nodes |
| AvlTree.AvlTree.Insert | src/binarytree/bst/avl/AvlTree.java:20-22 | the tree becomes the balanced search tree holding the old keys and `key`, unchanged when `key` was already there |
| AvlTree.AvlTree.InsertRecursive | src/binarytree/bst/avl/AvlTree.java:31-70 | returns the root of the inserted and rebalanced subtree, over its nodes and at most one new one, every height stored, changing nothing outside |
| AvlTree.AvlTree.InsertLeft | src/binarytree/bst/avl/AvlTree.java:36-37 | inserting left of `current`, relinking and rebalancing yields the inserted subtree |
| AvlTree.AvlTree.InsertBelowLeft | src/binarytree/bst/avl/AvlTree.java:37 | after `current.left = insertRecursive(...)` `current` holds its node over the inserted left subtree, both children storing their heights |
| AvlTree.AvlTree.InsertRight | src/binarytree/bst/avl/AvlTree.java:38-39 | inserting right of `current`, relinking and rebalancing yields the inserted subtree |
| AvlTree.AvlTree.InsertBelowRight | src/binarytree/bst/avl/AvlTree.java:39 | after `current.right = insertRecursive(...)` `current` holds its node over the inserted right subtree, both children storing their heights |
| AvlTree.AvlTree.Delete | src/binarytree/bst/avl/AvlTree.java:154-156 | the tree becomes the balanced search tree holding the old keys without `key`, unchanged when `key` was absent |
| AvlTree.AvlTree.DeleteRecursive | src/binarytree/bst/avl/AvlTree.java:165-213 | returns the root of the deleted and rebalanced subtree, over its own nodes, every height stored, changing nothing outside |
| AvlTree.AvlTree.DeleteLeft | src/binarytree/bst/avl/AvlTree.java:170-171 | deleting left of `current`, relinking and rebalancing yields the deleted subtree |
| AvlTree.AvlTree.DeleteRight | src/binarytree/bst/avl/AvlTree.java:172-173 | deleting right of `current`, relinking and rebalancing yields the deleted subtree |
| AvlTree.AvlTree.DeleteHere | src/binarytree/bst/avl/AvlTree.java:174-186 | a node with two children takes its successor's key, which is deleted on the right, and the result is the deleted subtree |
| AvlTree.AvlTree.DeleteBelowLeft | src/binarytree/bst/avl/AvlTree.java:171 | after `current.left = deleteRecursive(...)` `current` holds its node over the deleted left subtree |
| AvlTree.AvlTree.DeleteBelowRight | src/binarytree/bst/avl/AvlTree.java:173 | after `current.right = deleteRecursive(...)` `current` holds its node over the deleted right subtree |
| AvlTree.AvlTree.Search | src/binarytree/bst/avl/AvlTree.java:216-218 | non-null exactly when `key` is stored, and then a node holding `key` |
| AvlTree.AvlTree.NewNode | src/binarytree/bst/avl/AvlNode.java:15-17 | a fresh node with the key, no children and height 0 |
| RbNode.NewSlot | src/binarytree/bst/red_black/RbNode.java:29-34 | no contract; defines the slot `new RbNode(key, sentinel)` fills: the key, every link at the sentinel, colour red |
| RbNode.IsRed | src/binarytree/bst/red_black/RbNode.java:62-64 | no contract; defines `isRed` as the slot not being black |
| RbNode.IsBlack | src/binarytree/bst/red_black/RbNode.java:71-73 | no contract; defines `isBlack` as the slot's black flag |
| RbNode.SetBlack | src/binarytree/bst/red_black/RbNode.java:78-80 | no contract; defines `setBlack` as the slot with its black flag set and all else kept |
| RbNode.SetRed | src/binarytree/bst/red_black/RbNode.java:85-87 | no contract; defines `setRed` as the slot with its black flag cleared and all else kept |
| RbNode.GetLeft | src/binarytree/bst/red_black/RbNode.java:95-101 | no contract; defines `getLeft` as null when the left link is the sentinel, and otherwise the left child |
| RbNode.GetRight | src/binarytree/bst/red_black/RbNode.java:104-110 | no contract; defines `getRight` as null when the right link is the sentinel, and otherwise the right child |
| RbSpec.RotateLeft | src/binarytree/bst/red_black/RedBlackTree.java:157-177 | no contract; defines the tree `rotateLeft` leaves: the right child moves up, the old root takes its left subtree, every node keeps its colour |
| RbSpec.RotateRight | src/binarytree/bst/red_black/RedBlackTree.java:185-205 | no contract; defines the tree `rotateRight` leaves: the left child moves up, the old root takes its right subtree, every node keeps its colour |
| RbSpec.Extend | src/binarytree/bst/red_black/RedBlackTree.java:51-62 | one more step of the walk from a node leads to its child, and replacing there replaces that child |
| RbSpec.Extend2 | src/binarytree/bst/red_black/RedBlackTree.java:84-86 | two steps below a node reach its grandchild, and replacing there rebuilds both levels |
| RbSpec.Split2 | src/binarytree/bst/red_black/RedBlackTree.java:81-84 | a path of at least two steps splits at the grandparent, which is a node with a node child |
| RbSpec.LeafPath | src/binarytree/bst/red_black/RedBlackTree.java:40 | the only path into the empty tree is the empty one |
| RbSpec.ReplaceSame | src/binarytree/bst/red_black/RedBlackTree.java:297-307 | putting back the subtree that is there changes nothing |
| RbSpec.ReplaceTwice | src/binarytree/bst/red_black/RedBlackTree.java:297-307 | after a replacement the path leads to the new subtree, and a second replacement overrides the first |
| RbSpec.RootKept | src/binarytree/bst/red_black/RedBlackTree.java:297-307 | a replacement below the root keeps the root's key and colour |
| RbSpec.ShapeAt | src/binarytree/bst/red_black/RedBlackTree.java:27-29 | the uncoloured shape of a replacement is the replacement of the shapes |
| RbSpec.OrderReplace | src/binarytree/bst/red_black/RedBlackTree.java:157-205 | replacing a subtree by one with the same in-order keys keeps the in-order keys of the whole tree |
| RbSpec.SubBalanced | src/binarytree/bst/red_black/RedBlackTree.java:80-149 | every subtree of a black-balanced tree is black-balanced |
| RbSpec.SubRedOk | src/binarytree/bst/red_black/RedBlackTree.java:80-149 | every subtree of a tree without red-red links has none |
| RbSpec.BalancedReplace | src/binarytree/bst/red_black/RedBlackTree.java:80-149 | replacing a subtree by a balanced one of the same black height keeps the tree balanced |
| RbSpec.RedReplace | src/binarytree/bst/red_black/RedBlackTree.java:80-149 | replacing a subtree by one without red-red links, red only where the old one was, keeps the tree without them |
| RbSpec.LiftOrder | src/binarytree/bst/red_black/RedBlackTree.java:157-205 | both rotations keep the in-order key sequence |
| RbSpec.BalancedSwap | src/binarytree/bst/red_black/RedBlackTree.java:80-149 | a balanced subtree of the same black height put into a balanced tree keeps it balanced |
| RbSpec.RootBlack | src/binarytree/bst/red_black/RedBlackTree.java:148 | a replacement keeps the root black when it is below a black root or is black at the root |
| RbSpec.PaintKeeps | src/binarytree/bst/red_black/RbNode.java:78-80 | painting an already black node, or the sentinel, black changes nothing |
| RbSpec.PaintPairAt | src/binarytree/bst/red_black/RedBlackTree.java:109-110 | `parent.setBlack(); grandParent.setRed();` is the replacement of the grandparent by its repainted pair |
| RbSpec.PathConcat | src/binarytree/bst/red_black/RedBlackTree.java:84-86 | a path through a node and on below it is valid exactly when the rest is valid in the node's subtree, and leads there |
| RbSpec.EraseColours | src/binarytree/bst/red_black/RbNode.java:62-87 | the colour rules do not depend on the keys |
| RbSpec.ErasePath | src/binarytree/bst/red_black/RbNode.java:12-15 | paths, subtrees and replacements do not depend on the keys |
| RbSpec.SameShapePaths | src/binarytree/bst/red_black/RbNode.java:12-15 | trees of the same shape have the same paths to subtrees of the same shape |
| RbSpec.PaintShape | src/binarytree/bst/red_black/RbNode.java:78-87 | painting a node keeps the shape |
| RbSearch.SearchFrom | src/binarytree/bst/BstUtils.java:32-40 | the recursive search over the `getLeft`/`getRight` views meets the sentinel only when it starts there with key 0; a node found holds the key; from a real node it finds null exactly when the uncoloured search does |
| RbSearch.SearchIntended | src/binarytree/bst/red_black/RedBlackTree.java:420-423 | the documented search: a node exactly when the key is stored, and then a real node holding it |
| RbSearch.EmptySearchFindsSentinel | src/binarytree/bst/red_black/RedBlackTree.java:21-24 | on the empty tree `search(0)` as written returns the sentinel, a non-null node, while the intended search returns null |
| RbArena.RefsInside | src/binarytree/bst/red_black/RbNode.java:12-15 | every slot a held tree uses is allocated, and the sentinel is never one of them |
| RbArena.Frame | src/binarytree/bst/red_black/RedBlackTree.java:297-307 | a held tree stays held when none of its slots changes |
| RbArena.Join | src/binarytree/bst/red_black/RedBlackTree.java:64-70 | a slot outside two disjoint held subtrees, linked to them, holds their join |
| RbArena.Reparent | src/binarytree/bst/red_black/RedBlackTree.java:305-306 | setting the parent link of a subtree's root keeps the subtree held under the new parent |
| RbArena.Recolour | src/binarytree/bst/red_black/RbNode.java:78-87 | `setBlack`/`setRed` on a subtree's root makes the arena hold the repainted subtree over the same slots |
| RbArena.Relink | src/binarytree/bst/red_black/RedBlackTree.java:300-304 | pointing a child link at a slot that holds a new subtree makes the node hold its node with that subtree on that side |
| RbArena.RefAt | src/binarytree/bst/red_black/RedBlackTree.java:47-62 | the slot a descent along a path reaches holds the subtree at that path, under its own parent link |
| RbArena.ParentIsUp | src/binarytree/bst/red_black/RedBlackTree.java:81-84 | every node's `parent` link is the node above it on the path from the root |
| RbArena.TurnOf | src/binarytree/bst/red_black/RedBlackTree.java:85 | `x == x.parent.left` / `x == x.parent.right` tell which side `x` is on, except where both links are the sentinel |
| RbArena.Beneath | src/binarytree/bst/red_black/RedBlackTree.java:80-149 | below the root, a descent never meets the root again |
| RbArena.Climb | src/binarytree/bst/red_black/RedBlackTree.java:297-307 | rebuilding the subtree at a path from the same slot rebuilds the held tree with that subtree replaced |
| RbArena.Splice | src/binarytree/bst/red_black/RedBlackTree.java:297-307 | rebuilding the subtree at a path at a new slot and relinking the node above makes the arena hold the replaced tree |
| RbArena.PaintHolds | src/binarytree/bst/red_black/RbNode.java:78-87 | painting the node at a path paints it in the held tree and leaves every link as it was |
| RbArena.PaintRefAt | src/binarytree/bst/red_black/RbNode.java:78-87 | after painting, every descent meets the same slot as before |
| RbArena.RotatedEntries | src/binarytree/bst/red_black/RedBlackTree.java:157-205 | the slot-by-slot writes of a rotation: `x` takes the crossing grandchild and `y` as its parent, `y` takes `x` and `x`'s old parent, the grandchild takes `x`, `x`'s old parent now points at `y`, and nothing else changes |
| RbArena.LiftLocal | src/binarytree/bst/red_black/RedBlackTree.java:157-205 | a rotation below the parent link makes `y` hold the rotated subtree over the same slots |
| RbArena.RotateHolds | src/binarytree/bst/red_black/RedBlackTree.java:157-205 | `rotateLeft`/`rotateRight` at the node at a path: the arena holds the tree with that subtree lifted, from the new root when `x` was the root, with the same slots |
| RbReplace.Replaced | src/binarytree/bst/red_black/RedBlackTree.java:297-307 | `ReplaceSubTree` writes only links: the set of slots stays the same |
| RbReplace.ReplacedIsLink | src/binarytree/bst/red_black/RedBlackTree.java:297-307 | below a parent, `ReplaceSubTree` is the relink of the parent on the target's side after reparenting a real replacer |
| RbReplace.ReplaceHolds | src/binarytree/bst/red_black/RedBlackTree.java:238-254 | replacing a node that has at most one child by that child: the arena holds the tree with the node replaced by its child, from the child when the node was the root |
| RbInsertSpec.InsertStart | src/binarytree/bst/red_black/RedBlackTree.java:64-72 | a red node put where a red-black tree has the sentinel satisfies the loop invariant of `fixInsert` |
| RbInsertSpec.InsertFinish | src/binarytree/bst/red_black/RedBlackTree.java:82 | when the loop stops, painting the root black leaves a red-black tree (also lines 143-148) |
| RbInsertSpec.InsertRecolour | src/binarytree/bst/red_black/RedBlackTree.java:88-95 | case 1 keeps the invariant one level up at the grandparent and keeps the shape |
| RbInsertSpec.RecolourLocal | src/binarytree/bst/red_black/RedBlackTree.java:88-92 | case 1 keeps the grandparent's subtree balanced with the same black height |
| RbInsertSpec.RecolourAt | src/binarytree/bst/red_black/RedBlackTree.java:89-91 | the three colour writes of case 1 are the replacement of the grandparent's subtree by its recoloured version |
| RbInsertSpec.InsertOuter | src/binarytree/bst/red_black/RedBlackTree.java:107-111 | case 3 leaves a black subtree root, the invariant below it, and the in-order keys unchanged |
| RbInsertSpec.OuterLocal | src/binarytree/bst/red_black/RedBlackTree.java:107-111 | the colour arithmetic of case 3: a black root, balanced, with the same black height and no red-red links once the red child is painted |
| RbInsertSpec.InsertInner | src/binarytree/bst/red_black/RedBlackTree.java:97-106 | case 2 rotates the inner grandchild up, so that the old parent, still red, is the outer grandchild where the invariant now holds, and keeps the in-order keys |
| RbInsertSpec.InnerLift | src/binarytree/bst/red_black/RedBlackTree.java:99-101 | the colour arithmetic of case 2 on the parent's subtree |
| RbInsertSpec.RotatedTail | src/binarytree/bst/red_black/RedBlackTree.java:109-111 | the common end of cases 2 and 3: the invariant holds at the outer grandchild once the grandparent's subtree is rebuilt |
| RbDeleteSpec.DeleteLocal | src/binarytree/bst/red_black/RedBlackTree.java:337-340 | below the root, `current`'s sibling is a node, and the extra black sits inside the parent's subtree |
| RbDeleteSpec.RemoveStart | src/binarytree/bst/red_black/RedBlackTree.java:238-254 | removing a node with at most one child keeps a red-black tree when it was red, and starts `fixDelete` in its invariant at the child when it was black |
| RbDeleteSpec.DeleteFinish | src/binarytree/bst/red_black/RedBlackTree.java:333 | when the loop stops, painting `current` black leaves a red-black tree (also line 410) |
| RbDeleteSpec.DeleteRedSibling | src/binarytree/bst/red_black/RedBlackTree.java:341-347 | case 1 keeps the invariant, moving `current` two levels down below a red parent with a black sibling, and keeps the in-order keys |
| RbDeleteSpec.RedSiblingLocal | src/binarytree/bst/red_black/RedBlackTree.java:341-345 | the colour arithmetic of case 1 on the parent's subtree |
| RbDeleteSpec.DeleteRecolour | src/binarytree/bst/red_black/RedBlackTree.java:349-352 | case 2 moves the extra black up to the parent |
| RbDeleteSpec.RecolourLocal | src/binarytree/bst/red_black/RedBlackTree.java:349-352 | the colour arithmetic of case 2 |
| RbDeleteSpec.DeleteNearRed | src/binarytree/bst/red_black/RedBlackTree.java:354-361 | case 3 keeps the invariant and leaves a black sibling with a red far child |
| RbDeleteSpec.NearRedLocal | src/binarytree/bst/red_black/RedBlackTree.java:354-360 | the colour arithmetic of case 3 |
| RbDeleteSpec.WithChildOrder | src/binarytree/bst/red_black/RedBlackTree.java:157-205 | replacing a child by a subtree with the same in-order keys keeps the node's in-order keys |
| RbDeleteSpec.DeleteFarRed | src/binarytree/bst/red_black/RedBlackTree.java:363-369 | case 4 absorbs the extra black: the tree is balanced without red-red links, except perhaps a red root, and keeps its in-order keys |
| RbDeleteSpec.FarRedLocal | src/binarytree/bst/red_black/RedBlackTree.java:363-367 | the colour arithmetic of case 4 |
| RbDeleteSpec.Case4PaintAt | src/binarytree/bst/red_black/RedBlackTree.java:364-366 | `transferColor` and the two `setBlack` calls of case 4 are the replacement of the parent by its repainted subtree |
| RbDeleteSpec.RekeyKeeps | src/binarytree/bst/red_black/RedBlackTree.java:256-287 | changing the key at a node keeps every colour rule and the `fixDelete` invariant |
| RbDeleteSpec.LeftSpine | src/binarytree/bst/red_black/RedBlackTree.java:258-261 | going left as long as there is a left child ends at the smallest key of the subtree, and putting its right subtree in its place removes exactly that key |
| RbDeleteSpec.SuccessorSplice | src/binarytree/bst/red_black/RedBlackTree.java:256-287 | the two-children case as a tree value: the successor's right subtree takes the successor's place, and the successor takes the deleted node's place and colour |
| RbDeleteSpec.SuccessorShape | src/binarytree/bst/red_black/RedBlackTree.java:256-287 | the tree the two-children case leaves is the search tree `BstSpec.Delete` gives |
| RbFixArena.SlotColour | src/binarytree/bst/red_black/RbNode.java:62-73 | the colour a slot reports is the colour of the subtree it holds, the sentinel's being black |
| RbFixArena.PaintStep | src/binarytree/bst/red_black/RbNode.java:78-87 | one `setBlack`/`setRed` in the arena holds the repainted tree and keeps every descent |
| RbFixArena.PaintPairArena | src/binarytree/bst/red_black/RedBlackTree.java:109-110 | `setBlack` on the child and `setRed` on the node, in the arena |
| RbFixArena.RecolourArena | src/binarytree/bst/red_black/RedBlackTree.java:89-91 | the three writes of case 1 of `fixInsert` in the arena |
| RbFixArena.Case4Arena | src/binarytree/bst/red_black/RedBlackTree.java:364-366 | the recolouring of case 4 of `fixDelete` in the arena |
| RbFixArena.RedParent | src/binarytree/bst/red_black/RedBlackTree.java:82-86 | a red parent is not the black root, so `current` has a grandparent, and the parent is its child on the side read |
| RbFixArena.InsertExit | src/binarytree/bst/red_black/RedBlackTree.java:143-148 | the end of `fixInsert` in the arena leaves a red-black tree |
| RbFixArena.DeleteExit | src/binarytree/bst/red_black/RedBlackTree.java:333 | the end of `fixDelete` in the arena leaves a red-black tree (also line 410) |
| RbFixArena.InnerArena | src/binarytree/bst/red_black/RedBlackTree.java:97-106 | case 2 of `fixInsert` in the arena: after the rotation the old parent is the outer grandchild, and its parent links are right |
| RbSuccessor.RightPartNear | src/binarytree/bst/red_black/RedBlackTree.java:267-275 | when the successor is the right child, the writes before `ReplaceSubTree(nodeToDelete, successor)` change nothing |
| RbSuccessor.DeepSplice | src/binarytree/bst/red_black/RedBlackTree.java:267-270 | unlinking a successor deep in the right subtree holds that subtree without it |
| RbSuccessor.RightPartDeep | src/binarytree/bst/red_black/RedBlackTree.java:271-275 | after unlinking, `successor.right = nodeToDelete.right` hangs the trimmed right subtree below the successor |
| RbSuccessor.SuccessorLocal | src/binarytree/bst/red_black/RedBlackTree.java:256-287 | below `z`'s parent, the successor holds `z`'s node with the successor's key and the trimmed right subtree |
| RbSuccessor.SuccessorHolds | src/binarytree/bst/red_black/RedBlackTree.java:256-287 | the two-children case on the whole arena: it holds the tree `RbDeleteSpec.SuccessorSplice` describes |
| RbDeleteArena.StartReaches | src/binarytree/bst/red_black/RedBlackTree.java:238-254 | where `fixDelete` starts, the parent link of `current`, including the sentinel's, reaches the node above it |
| RbDeleteArena.Sides | src/binarytree/bst/red_black/RedBlackTree.java:337-340 | `current == current.parent.left` tells the side, and the sibling is a node whose colour its slot reports (also lines 373-376) |
| RbDeleteArena.RedSiblingArena | src/binarytree/bst/red_black/RedBlackTree.java:341-347 | case 1 in the arena: it holds the case 1 tree, with `current` two levels lower and a black sibling |
| RbDeleteArena.BlackChildrenArena | src/binarytree/bst/red_black/RedBlackTree.java:349-352 | case 2 in the arena: `current` moves to the parent |
| RbDeleteArena.NearRedArena | src/binarytree/bst/red_black/RedBlackTree.java:354-361 | case 3 in the arena: the new sibling is black with a red far child |
| RbDeleteArena.FarRedArena | src/binarytree/bst/red_black/RedBlackTree.java:363-369 | case 4 in the arena: the arena holds a red-black tree, except perhaps a red root |
| RedBlackTree.RedBlackTree.constructor | src/binarytree/bst/red_black/RedBlackTree.java:21-24 | a new tree is empty, with `root` at the sentinel, and valid |
| RedBlackTree.RedBlackTree.Search | src/binarytree/bst/red_black/RedBlackTree.java:421-423 | in a non-empty tree, a node is returned exactly when the key is stored, and it holds the key; in the empty tree the sentinel is returned for key 0 |
| RedBlackTree.RedBlackTree.SearchCorrected | src/binarytree/bst/red_black/RedBlackTree.java:414-423 | the search as its documentation promises: a node exactly when the key is stored, the empty tree included, and then a real node holding the key |
| RedBlackTree.RedBlackTree.NewNode | src/binarytree/bst/red_black/RbNode.java:29-34 | `new RbNode(key, NIL)` takes a fresh slot holding a red node with every link at the sentinel |
| RedBlackTree.RedBlackTree.SetBlackAt | src/binarytree/bst/red_black/RbNode.java:78-80 | `setBlack` paints one slot black, and the sentinel stays black |
| RedBlackTree.RedBlackTree.SetRedAt | src/binarytree/bst/red_black/RbNode.java:85-87 | `setRed` paints one slot red and changes nothing else |
| RedBlackTree.RedBlackTree.TransferColor | src/binarytree/bst/red_black/RedBlackTree.java:316-322 | the target takes the source's colour and nothing else changes |
| RedBlackTree.RedBlackTree.SetParent | src/binarytree/bst/red_black/RedBlackTree.java:305-306 | `x.parent = p`, on the sentinel's own field when `x` is the sentinel |
| RedBlackTree.RedBlackTree.ReplaceSubTree | src/binarytree/bst/red_black/RedBlackTree.java:297-307 | the target's parent, or `root`, points at the replacer, which takes the target's parent |
| RedBlackTree.RedBlackTree.RotateLeft | src/binarytree/bst/red_black/RedBlackTree.java:157-177 | the writes of `rotateLeft`, and `root` moves to the right child when `x` was the root |
| RedBlackTree.RedBlackTree.RotateRight | src/binarytree/bst/red_black/RedBlackTree.java:185-205 | the writes of `rotateRight`, and `root` moves to the left child when `x` was the root |
| RedBlackTree.RedBlackTree.LiftChild | src/binarytree/bst/red_black/RedBlackTree.java:157-205 | `rotateRight` for a left child and `rotateLeft` otherwise: the slots become the rotated arena and `root` moves to the lifted child exactly when `x` was the root |
| RedBlackTree.RedBlackTree.RotateAt | src/binarytree/bst/red_black/RedBlackTree.java:157-205 | a rotation at the node at a path lifts its child in the tree the arena holds |
| RedBlackTree.RedBlackTree.Insert | src/binarytree/bst/red_black/RedBlackTree.java:38-72 | afterwards the tree is a valid red-black search tree whose in-order keys are those of the search-tree insert, its keys gain `key`, and a key already there changes nothing |
| RedBlackTree.RedBlackTree.Attach | src/binarytree/bst/red_black/RedBlackTree.java:64-70 | attaching the new node where the walk fell off replaces the sentinel there by a red leaf node |
| RedBlackTree.RedBlackTree.Descend | src/binarytree/bst/red_black/RedBlackTree.java:47-62 | the walk stops at a node holding `key`, where the insert changes nothing, or falls off on the side `key` lies, where a new leaf gives the search-tree insert |
| RedBlackTree.RedBlackTree.FixInsert | src/binarytree/bst/red_black/RedBlackTree.java:80-149 | `fixInsert` leaves a red-black tree with the same in-order keys |
| RedBlackTree.RedBlackTree.FinishInsert | src/binarytree/bst/red_black/RedBlackTree.java:143-148 | painting the root black at the end leaves a red-black tree |
| RedBlackTree.RedBlackTree.InsertRound | src/binarytree/bst/red_black/RedBlackTree.java:83-142 | one round keeps the invariant with `current` strictly higher, and keeps the in-order keys |
| RedBlackTree.RedBlackTree.InsertUncleCase | src/binarytree/bst/red_black/RedBlackTree.java:88-95 | case 1 keeps the invariant at the grandparent (also lines 117-124) |
| RedBlackTree.RedBlackTree.InsertInnerCase | src/binarytree/bst/red_black/RedBlackTree.java:97-106 | case 2 makes the old parent the outer grandchild (also lines 126-135) |
| RedBlackTree.RedBlackTree.InsertOuterCase | src/binarytree/bst/red_black/RedBlackTree.java:107-111 | case 3 leaves a black parent, which ends the loop (also lines 136-140) |
| RedBlackTree.RedBlackTree.PaintOuter | src/binarytree/bst/red_black/RedBlackTree.java:109-110 | the recolouring of case 3 on the arena (also lines 138-139) |
| RedBlackTree.RedBlackTree.Delete | src/binarytree/bst/red_black/RedBlackTree.java:214-288 | afterwards the tree is a valid red-black search tree whose in-order keys are those of the search-tree delete, its keys lose `key`, and an empty tree or a missing key changes nothing |
| RedBlackTree.RedBlackTree.FindNode | src/binarytree/bst/red_black/RedBlackTree.java:220-234 | the search stops at the node holding `key`, or at the sentinel where it would be, and deleting from the whole tree is deleting from the subtree there |
| RedBlackTree.RedBlackTree.DeleteOneChild | src/binarytree/bst/red_black/RedBlackTree.java:238-254 | the node is replaced by its one child, and the tree is red-black again after `fixDelete` |
| RedBlackTree.RedBlackTree.DeleteTwoChildren | src/binarytree/bst/red_black/RedBlackTree.java:256-287 | the successor takes the node's place, and the result is red-black with the in-order keys of the search-tree delete |
| RedBlackTree.RedBlackTree.FindSuccessor | src/binarytree/bst/red_black/RedBlackTree.java:258-261 | the loop turns only left from the right child, to a node without a left child |
| RedBlackTree.RedBlackTree.UnlinkSuccessor | src/binarytree/bst/red_black/RedBlackTree.java:263-275 | the writes before `ReplaceSubTree(nodeToDelete, successor)` |
| RedBlackTree.RedBlackTree.JoinSuccessor | src/binarytree/bst/red_black/RedBlackTree.java:277-282 | the writes from `ReplaceSubTree(nodeToDelete, successor)` on |
| RedBlackTree.RedBlackTree.FixDelete | src/binarytree/bst/red_black/RedBlackTree.java:332-411 | `fixDelete` leaves a red-black tree with the same in-order keys |
| RedBlackTree.RedBlackTree.FinishDelete | src/binarytree/bst/red_black/RedBlackTree.java:410 | the closing `setBlack` leaves a red-black tree |
| RedBlackTree.RedBlackTree.DeleteRound | src/binarytree/bst/red_black/RedBlackTree.java:334-407 | one round keeps the invariant, or finishes, and decreases the loop's measure |
| RedBlackTree.RedBlackTree.RedSiblingCase | src/binarytree/bst/red_black/RedBlackTree.java:341-347 | case 1 leaves `current` with a black sibling (also lines 377-383) |
| RedBlackTree.RedBlackTree.RedSiblingRound | src/binarytree/bst/red_black/RedBlackTree.java:341-370 | a round that starts with case 1: it keeps the invariant and ends at the root or at a red node, which ends the loop (also lines 377-406) |
| RedBlackTree.RedBlackTree.PaintUpperRed | src/binarytree/bst/red_black/RedBlackTree.java:343-344 | the lower node painted black and the upper one red (also lines 357-358) |
| RedBlackTree.RedBlackTree.BlackSiblingRound | src/binarytree/bst/red_black/RedBlackTree.java:349-370 | cases 2 to 4 with a black sibling |
| RedBlackTree.RedBlackTree.RecolourCase | src/binarytree/bst/red_black/RedBlackTree.java:349-352 | case 2 moves `current` up to its parent (also lines 385-388) |
| RedBlackTree.RedBlackTree.NearRedCase | src/binarytree/bst/red_black/RedBlackTree.java:354-361 | case 3 leaves a sibling with a red far child (also lines 390-397) |
| RedBlackTree.RedBlackTree.FarRedCase | src/binarytree/bst/red_black/RedBlackTree.java:363-369 | case 4 removes the extra black and ends the loop at the root (also lines 399-405) |
| RedBlackTree.RedBlackTree.FarRedPaint | src/binarytree/bst/red_black/RedBlackTree.java:364-366 | the recolouring of case 4 on the arena (also lines 400-402) |
| UnionFind.PathEnds | src/unionfind/UnionFind.java:43-45 | the elements `find` passes through start at the element, end at its root and all belong to its set |
| UnionFind.CompressForest | src/unionfind/UnionFind.java:43-44 | pointing elements straight at their roots keeps the forest, its roots and its ranks |
| UnionFind.Merge | src/unionfind/UnionFind.java:62-70 | after the link, every element of the loser's set has the winner as its root and every other element keeps its root |
| UnionFind.LinkForest | src/unionfind/UnionFind.java:63-70 | hanging a root under a root of no lower rank, raising the rank on a tie, keeps a union-by-rank forest |
| UnionFind.MergePartition | src/unionfind/UnionFind.java:62-70 | after the link, two elements share a set exactly when they did before or one was with `x` and the other with `y` |
| UnionFind.UnionFind.constructor | src/unionfind/UnionFind.java:26-31 | every element starts as its own parent and its own set, with rank 0 |
| UnionFind.UnionFind.FindRoot | src/unionfind/UnionFind.java:43-45 | returns the element's root and points every element on the walk straight at it, changing no set and no rank |
| UnionFind.UnionFind.Find | src/unionfind/UnionFind.java:39-46 | `IllegalArgumentException` exactly for an element outside `0 .. count - 1`, which changes nothing; otherwise the root of its set, with the path compressed and the sets and ranks unchanged |
| UnionFind.UnionFind.Union | src/unionfind/UnionFind.java:54-72 | `IllegalArgumentException` exactly when an element is out of range, which changes nothing; otherwise `x` and `y` then share a set, no other set changes, and the lower-ranked root goes under the other, on a tie `y`'s under `x`'s with a rank increase |
| UnionFind.UnionFind.Link | src/unionfind/UnionFind.java:63-70 | the loser's parent becomes the winner, the roots merge, and the rank grows only on a tie |
| UnionFind.Create | src/unionfind/UnionFind.java:26-27 | `NegativeArraySizeException` exactly for a negative count; otherwise `count` singleton sets |
| UnionFindMain.Relabel | src/unionfind/UnionFindMain.java:9-15 | joining two sets gives every element of `y`'s set `x`'s label and changes no other label |
| UnionFindMain.LabelsAfterUnion | src/unionfind/UnionFind.java:54-72 | a union keeps the labels naming the sets once `y`'s label is replaced by `x`'s |
| UnionFindMain.UnionLabelled | src/unionfind/UnionFindMain.java:9-15 | `uf.union(x, y)` keeps the labels naming the sets |
| UnionFindMain.SameSetQuery | src/unionfind/UnionFindMain.java:23-25 | `find(a) == find(b)` exactly when `a` and `b` share a set, and the sets do not change |
| UnionFindMain.DemoRelabels | src/unionfind/UnionFindMain.java:9-15 | the labels after each of the seven unions of the scenario |
| UnionFindMain.Demo | src/unionfind/UnionFindMain.java:4-34 | after the seven unions, elements 2 and 3 share a set, while 0 and 8 do not, nor do 1 and 6 |
| Graph.GetVertexByIndex | src/graph/VertexUtil.java:12-22 | a vertex returned has the index and comes from the map; `null` means no vertex has it |
| Graph.GetVertexByIndexFinds | src/graph/VertexUtil.java:12-22 | for a map in which no two vertices share an index, the lookup returns `v` exactly when `v` has the index, whatever the iteration order |
| KruskalUnionFind.PathEnds | src/graph/mst/kruskal/UnionFind.java:33-37 | the vertices `find` passes through start at the vertex, end at its root and belong to its set |
| KruskalUnionFind.CompressForest | src/graph/mst/kruskal/UnionFind.java:34-35 | pointing vertices straight at their roots keeps the forest |
| KruskalUnionFind.Merge | src/graph/mst/kruskal/UnionFind.java:46-55 | after the link, every vertex of the loser's set has the winner as its root, and every other vertex keeps its root |
| KruskalUnionFind.LinkShape | src/graph/mst/kruskal/UnionFind.java:47-52 | hanging a root under another root keeps every parent pointing within the same set |
| KruskalUnionFind.LinkRanked | src/graph/mst/kruskal/UnionFind.java:47-54 | hanging a root under a root of no lower rank, raising the rank on a tie, keeps the ranks rising towards the roots |
| KruskalUnionFind.LinkForest | src/graph/mst/kruskal/UnionFind.java:46-55 | the link keeps a union-by-rank forest |
| KruskalUnionFind.MergePartition | src/graph/mst/kruskal/UnionFind.java:46-55 | after the link, exactly the two sets of `x` and `y` are joined |
| KruskalUnionFind.UnionFind.constructor | src/graph/mst/kruskal/UnionFind.java:20-27 | every listed vertex is its own parent and its own set, with rank 0, and no other vertex is known |
| KruskalUnionFind.UnionFind.FindRoot | src/graph/mst/kruskal/UnionFind.java:33-38 | returns the vertex's root and compresses the path, changing no set and no rank |
| KruskalUnionFind.UnionFind.Find | src/graph/mst/kruskal/UnionFind.java:33-38 | a vertex that was never listed throws `NullPointerException` and changes nothing; otherwise its root, with the path compressed |
| KruskalUnionFind.UnionFind.Union | src/graph/mst/kruskal/UnionFind.java:43-56 | an unlisted vertex throws `NullPointerException`; otherwise `x` and `y` then share a set, no other set changes, and the lower-ranked root goes under the other, on a tie `y`'s under `x`'s with a rank increase |
| KruskalUnionFind.UnionFind.Link | src/graph/mst/kruskal/UnionFind.java:47-54 | the loser's parent becomes the winner, the roots merge, and the rank grows only on a tie |
| KruskalMst.SortByWeight | src/graph/mst/kruskal/KruskalMstMain.java:63-68 | no contract; defines `edges.sort` by weight as a stable insertion sort |
| KruskalMst.Step | src/graph/mst/kruskal/KruskalMstMain.java:72-75 | no contract; defines one turn of the loop: `NullPointerException` for an unknown endpoint, an edge between two sets kept and the sets joined, an edge inside one set skipped |
| KruskalMst.Run | src/graph/mst/kruskal/KruskalMstMain.java:71-76 | no contract; defines the loop over the sorted edges, first to last, stopping at the first exception |
| KruskalMst.InsertMultiset | src/graph/mst/kruskal/KruskalMstMain.java:63-68 | inserting an edge adds just that edge |
| KruskalMst.InsertSorted | src/graph/mst/kruskal/KruskalMstMain.java:63-68 | inserting into a list sorted by weight keeps it sorted |
| KruskalMst.SortByWeightSorted | src/graph/mst/kruskal/KruskalMstMain.java:63-68 | the sorted list is in weight order and has the same edges |
| KruskalMst.SortedSortByWeight | src/graph/mst/kruskal/KruskalMstMain.java:63-68 | a list already in weight order is left as it is |
| KruskalMst.InsertOfWeight | src/graph/mst/kruskal/KruskalMstMain.java:63-68 | the inserted edge goes first among the edges of its weight |
| KruskalMst.SortByWeightStable | src/graph/mst/kruskal/KruskalMstMain.java:63-68 | the sort is stable: the edges of each weight keep their order |
| KruskalMst.Relabel | src/graph/mst/kruskal/KruskalMstMain.java:74 | joining two sets gives `y`'s set `x`'s label and changes no other label |
| KruskalMst.Singletons | src/graph/mst/kruskal/KruskalMstMain.java:69 | every listed vertex starts in a set of its own |
| KruskalMst.RunFails | src/graph/mst/kruskal/KruskalMstMain.java:71-76 | once the scan throws, the result stays that exception to the end |
| KruskalMst.RelabelValues | src/graph/mst/kruskal/KruskalMstMain.java:72-74 | joining two different sets removes exactly one label |
| KruskalMst.RunCounts | src/graph/mst/kruskal/KruskalMstMain.java:71-76 | the kept edges plus the remaining sets number the sets the scan started from |
| KruskalMst.SubsequenceIn | src/graph/mst/kruskal/KruskalMstMain.java:71-76 | an edge of a subsequence is an edge of the whole list |
| KruskalMst.RunSubsequence | src/graph/mst/kruskal/KruskalMstMain.java:71-76 | the scan keeps some of the edges, in their order |
| KruskalMst.MstSize | src/graph/mst/kruskal/KruskalMstMain.java:69-77 | from singletons, the scan keeps at most one edge fewer than there are distinct vertices, and only input edges |
| KruskalMst.WalkWithin | src/graph/mst/kruskal/KruskalMstMain.java:71-76 | a walk along edges inside the sets stays in the set it starts in |
| KruskalMst.RelabelWithin | src/graph/mst/kruskal/KruskalMstMain.java:72-74 | joining the endpoints' sets keeps every edge inside a set, the new edge included |
| KruskalMst.RunForest | src/graph/mst/kruskal/KruskalMstMain.java:71-76 | the kept edges lie inside the final sets and close no cycle: each joins vertices the edges before it do not link |
| KruskalMst.ForestSnoc | src/graph/mst/kruskal/KruskalMstMain.java:72-73 | an edge between two different sets closes no cycle with edges inside the sets |
| KruskalMst.LabelsAfterUnion | src/graph/mst/kruskal/UnionFind.java:43-56 | a union keeps the labels naming the sets once `y`'s label is replaced by `x`'s |
| KruskalMst.RunSnoc | src/graph/mst/kruskal/KruskalMstMain.java:71-76 | the scan over one more edge is one more step of the loop |
| KruskalMst.FindsDiffer | src/graph/mst/kruskal/KruskalMstMain.java:72 | `uf.find(u) != uf.find(v)` is whether the endpoints lie in different sets, or `NullPointerException` for an unknown endpoint |
| KruskalMst.Join | src/graph/mst/kruskal/KruskalMstMain.java:74 | `uf.union` keeps the labels naming the sets |
| KruskalMst.BuildMst | src/graph/mst/kruskal/KruskalMstMain.java:52-78 | an empty vertex or edge list throws `IllegalArgumentException`; otherwise the caller's list is sorted by weight in place, and the result is the scan's kept edges (or its exception): a forest of input edges with at most one fewer edge than vertices |
| KruskalMst.DemoRunFor | src/graph/mst/kruskal/KruskalMstMain.java:37-44 | on the demonstration graph the scan keeps A-B, D-B and B-C and skips A-D and D-C |
| KruskalMst.Demo | src/graph/mst/kruskal/KruskalMstMain.java:21-46 | the demonstration's tree is A-B (1), D-B (2), B-C (3) |
| EdgePriorityQueue.Slot | src/graph/mst/prim/EdgePriorityQueue.java:63-69 | the slot `add` chooses: every entry before it is heavier than the new edge, and the entry there, if any, is not |
| EdgePriorityQueue.IndexOf | src/graph/mst/prim/EdgePriorityQueue.java:107-113 | the first position of the edge, or -1 exactly when it is not queued |
| EdgePriorityQueue.FirstTo | src/graph/mst/prim/EdgePriorityQueue.java:132-143 | null exactly when no entry enters the vertex; otherwise the first entry that does |
| EdgePriorityQueue.PlacedDescending | src/graph/mst/prim/EdgePriorityQueue.java:59-74 | `add` keeps the entries in non-increasing weight and adds just the new edge |
| EdgePriorityQueue.PlacedAt | src/graph/mst/prim/EdgePriorityQueue.java:71-72 | after `add`, the entries before the slot stay, the new edge is at the slot, and the rest move one place right |
| EdgePriorityQueue.PlacedTies | src/graph/mst/prim/EdgePriorityQueue.java:64-68 | among equal weights the newest is first, so the oldest is polled first |
| EdgePriorityQueue.RemoveAtDescending | src/graph/mst/prim/EdgePriorityQueue.java:118-119 | removing an entry keeps the order |
| EdgePriorityQueue.ShiftedPlaced | src/graph/mst/prim/EdgePriorityQueue.java:71-73 | the `arraycopy` shift and the write into the slot leave exactly the `add` result in the used slots |
| EdgePriorityQueue.LastIsLightest | src/graph/mst/prim/EdgePriorityQueue.java:81-83 | the last entry of the ordered queue is a lightest one |
| EdgePriorityQueue.EdgePriorityQueue.constructor | src/graph/mst/prim/EdgePriorityQueue.java:24-30 | an empty queue of `maxSize` slots |
| EdgePriorityQueue.EdgePriorityQueue.IsEmpty | src/graph/mst/prim/EdgePriorityQueue.java:37-39 | true exactly when nothing is queued |
| EdgePriorityQueue.EdgePriorityQueue.IsFull | src/graph/mst/prim/EdgePriorityQueue.java:46-48 | true exactly when every slot is used |
| EdgePriorityQueue.EdgePriorityQueue.Add | src/graph/mst/prim/EdgePriorityQueue.java:59-74 | `IllegalStateException` on a full queue, which changes nothing; otherwise the edge goes before the first entry no heavier than it, and the order is kept |
| EdgePriorityQueue.EdgePriorityQueue.InsertAt | src/graph/mst/prim/EdgePriorityQueue.java:71-73 | the shift and the write place the edge at the slot |
| EdgePriorityQueue.EdgePriorityQueue.ShiftRight | src/graph/mst/prim/EdgePriorityQueue.java:71 | `arraycopy` moves the entries from the slot on one place right |
| EdgePriorityQueue.EdgePriorityQueue.ShiftLeft | src/graph/mst/prim/EdgePriorityQueue.java:118 | `arraycopy` moves the entries after the index one place left |
| EdgePriorityQueue.EdgePriorityQueue.PeekSmallest | src/graph/mst/prim/EdgePriorityQueue.java:81-83 | null on an empty queue, otherwise the last entry, a lightest queued edge |
| EdgePriorityQueue.EdgePriorityQueue.PollSmallest | src/graph/mst/prim/EdgePriorityQueue.java:91-96 | `NoSuchElementException` on an empty queue; otherwise removes and returns what `peekSmallest` shows |
| EdgePriorityQueue.EdgePriorityQueue.Replace | src/graph/mst/prim/EdgePriorityQueue.java:106-122 | `NoSuchElementException` when the target is not queued, which changes nothing; otherwise the first equal entry goes and the replacement is added in order |
| EdgePriorityQueue.EdgePriorityQueue.FindEdgeWithDestination | src/graph/mst/prim/EdgePriorityQueue.java:131-144 | the first queued edge into the vertex, or null, and nothing changes |
| EdgePriorityQueue.Create | src/graph/mst/prim/EdgePriorityQueue.java:24-30 | `IllegalArgumentException` exactly when `maxSize <= 0`; otherwise an empty queue of that size |
| PrimListGraph.LinkedLists | src/graph/mst/prim/graph/PrimListGraph.java:40-59 | `setEdge` keeps the lists undirected, without loops, with one edge per ordered pair |
| PrimListGraph.LinkedOutgoing | src/graph/mst/prim/graph/PrimListGraph.java:53-58 | after `setEdge` every list still leaves its vertex and enters vertices of the graph |
| PrimListGraph.MirrorKept | src/graph/mst/prim/graph/PrimListGraph.java:57-58 | after `setEdge` every edge still has its mirror in its destination's list |
| PrimListGraph.LinkedEffect | src/graph/mst/prim/graph/PrimListGraph.java:57-58 | after `setEdge` the only edges between the two endpoints have the new weight, the other edges of both lists stay, and every other list is unchanged |
| PrimListGraph.PrimListGraph.constructor | src/graph/mst/prim/graph/PrimListGraph.java:18-20 | an empty graph |
| PrimListGraph.PrimListGraph.AddVertex | src/graph/mst/prim/graph/PrimListGraph.java:27-32 | a new vertex gets an empty list; a present one changes nothing |
| PrimListGraph.PrimListGraph.SetEdge | src/graph/mst/prim/graph/PrimListGraph.java:40-59 | `IllegalArgumentException` for identical or unknown endpoints, which changes nothing; otherwise the edge is stored in both lists with any weight |
| PrimListGraph.PrimListGraph.ReplaceOrUpdateEdge | src/graph/mst/prim/graph/PrimListGraph.java:65-71 | the list without the edge `findEdge` finds, if any, with the new edge appended |
| PrimListGraph.PrimListGraph.FindEdge | src/graph/mst/prim/graph/PrimListGraph.java:76-83 | the first edge from `source` to `destination`, or null when there is none |
| PrimListGraph.PrimListGraph.GetEdgesForSource | src/graph/mst/prim/graph/PrimListGraph.java:86-88 | the stored list, whose edges all leave `source`, or null for an unknown vertex |
| PrimListGraph.PrimListGraph.GetVertexCount | src/graph/mst/prim/graph/PrimListGraph.java:91-93 | the number of distinct vertices added |
| PrimListGraph.PrimListGraph.ContainsVertex | src/graph/mst/prim/graph/PrimListGraph.java:96-98 | whether the vertex was added |
| PrimListGraph.PrimListGraph.ViewWellFormed | src/graph/mst/prim/graph/PrimListGraph.java:86-93 | the graph Prim's algorithm reads is well-formed and undirected, and its count is exact |
| PrimMatrixGraph.RowEdges | src/graph/mst/prim/graph/PrimMatrixGraph.java:86-91 | no contract; defines the edges of a row from a column on: one edge into the column's vertex for each cell that is not `NO_EDGE`, in column order |
| PrimMatrixGraph.RowEdgesFrom | src/graph/mst/prim/graph/PrimMatrixGraph.java:86-91 | a row's edges are exactly the edges into the owners of its columns whose cell is not `NO_EDGE` |
| PrimMatrixGraph.PrimMatrixGraph.constructor | src/graph/mst/prim/graph/PrimMatrixGraph.java:27-35 | a square matrix of `NO_EDGE` cells and no vertices |
| PrimMatrixGraph.PrimMatrixGraph.Row | src/graph/mst/prim/graph/PrimMatrixGraph.java:86-87 | row `i` of the matrix, one cell per column |
| PrimMatrixGraph.PrimMatrixGraph.AddVertex | src/graph/mst/prim/graph/PrimMatrixGraph.java:42-50 | `IllegalStateException` once the counter reaches `maxVertices`, even for a present vertex; otherwise a new vertex gets the counter as its index, and the counter advances whether or not the vertex was new |
| PrimMatrixGraph.PrimMatrixGraph.SetEdge | src/graph/mst/prim/graph/PrimMatrixGraph.java:57-76 | `IllegalArgumentException` for identical or unknown endpoints, which changes nothing; otherwise both symmetric cells become `weight` and no other cell changes |
| PrimMatrixGraph.PrimMatrixGraph.GetEdgesForSource | src/graph/mst/prim/graph/PrimMatrixGraph.java:79-93 | `IllegalArgumentException` for an unknown vertex; otherwise, in column order, one edge for every cell of its row that is not `NO_EDGE` |
| PrimMatrixGraph.PrimMatrixGraph.ScanRow | src/graph/mst/prim/graph/PrimMatrixGraph.java:86-91 | the loop over the row returns the row's edges |
| PrimMatrixGraph.PrimMatrixGraph.ViewRow | src/graph/mst/prim/graph/PrimMatrixGraph.java:79-93 | a vertex's edges, as Prim's algorithm reads them, are its row's |
| PrimMatrixGraph.PrimMatrixGraph.EdgesOfRow | src/graph/mst/prim/graph/PrimMatrixGraph.java:86-91 | the listed edges are exactly the edges into a vertex whose weight is their cell and not `NO_EDGE` |
| PrimMatrixGraph.PrimMatrixGraph.GetVertexCount | src/graph/mst/prim/graph/PrimMatrixGraph.java:96-98 | the counter, at least the number of distinct vertices, and more once a vertex was added twice |
| PrimMatrixGraph.PrimMatrixGraph.ContainsVertex | src/graph/mst/prim/graph/PrimMatrixGraph.java:101-103 | whether the vertex has an index |
| PrimMatrixGraph.PrimMatrixGraph.ViewWellFormed | src/graph/mst/prim/graph/PrimMatrixGraph.java:56-93 | the graph Prim's algorithm reads is well-formed and undirected, and its count covers the vertices |
| PrimMatrixGraph.Create | src/graph/mst/prim/graph/PrimMatrixGraph.java:27-35 | `NegativeArraySizeException` exactly for a negative size; otherwise an empty graph |
| PrimMst.Reached | src/graph/mst/prim/main/PrimMstMain.java:62-74 | the vertices a tree grown from the start spans: the start and every edge's destination |
| PrimMst.GrownTree | src/graph/mst/prim/main/PrimMstMain.java:73-97 | a grown tree of `n` edges spans `n + 1` vertices of the graph, and each edge joins two of them: it is a tree |
| PrimMst.GrownPrefix | src/graph/mst/prim/main/PrimMstMain.java:73-97 | a prefix of a grown tree is grown |
| PrimMst.GrowStep | src/graph/mst/prim/main/PrimMstMain.java:94-96 | adding a crossing edge gives a tree with one more edge and one more vertex |
| PrimMst.EndsGrow | src/graph/mst/prim/main/PrimMstMain.java:94-96 | the edges' ends stay covered as the vertex set grows |
| PrimMst.Spans | src/graph/mst/prim/main/PrimMstMain.java:73 | when the count is exact, a grown tree of `vertexCount - 1` edges spans every vertex |
| PrimMst.GrownSnoc | src/graph/mst/prim/main/PrimMstMain.java:94-96 | adding a lightest crossing edge keeps the tree grown and reaches its destination |
| PrimMst.KeyedFirstTo | src/graph/mst/prim/main/PrimMstMain.java:80 | on a queue with one edge per destination, `findEdgeWithDestination` is a map lookup |
| PrimMst.KeyedRemove | src/graph/mst/prim/main/PrimMstMain.java:83 | removing an entry removes its destination from the map (also line 94) |
| PrimMst.RemovedAt | src/graph/mst/prim/EdgePriorityQueue.java:118-119 | where each entry lands once one entry is removed |
| PrimMst.KeyedAdd | src/graph/mst/prim/main/PrimMstMain.java:86 | adding an edge into a new destination adds it to the map |
| PrimMst.PlacedKeys | src/graph/mst/prim/main/PrimMstMain.java:86 | after `add`, every entry is the map's edge for its destination |
| PrimMst.PlacedHolds | src/graph/mst/prim/main/PrimMstMain.java:86 | after `add`, every edge of the map is queued |
| PrimMst.PlacedDistinct | src/graph/mst/prim/main/PrimMstMain.java:86 | adding an edge into a new destination keeps the destinations distinct |
| PrimMst.KeyedReplace | src/graph/mst/prim/main/PrimMstMain.java:83 | `replace` of the queued edge into the same destination keeps one edge per destination |
| PrimMst.KeyedSize | src/graph/mst/prim/main/PrimMstMain.java:70 | a queue with one edge per destination holds as many edges as destinations |
| PrimMst.StartScan | src/graph/mst/prim/main/PrimMstMain.java:74-76 | once the vertex joins the tree, the queue covers the edges from the old tree |
| PrimMst.Improve | src/graph/mst/prim/main/PrimMstMain.java:80-87 | queuing an edge into a vertex with no queued edge or a heavier one keeps the queue covering the scanned edges |
| PrimMst.Keep | src/graph/mst/prim/main/PrimMstMain.java:79-84 | skipping an edge into the tree, or into a vertex whose queued edge is no heavier, keeps the coverage |
| PrimMst.EndScan | src/graph/mst/prim/main/PrimMstMain.java:77-89 | after the scan the queue covers every edge leaving the grown tree |
| PrimMst.Room | src/graph/mst/prim/main/PrimMstMain.java:70 | with a vertex not yet queued, fewer edges are queued than the graph has vertices, so `add` never overflows (also line 86) |
| PrimMst.PollStep | src/graph/mst/prim/main/PrimMstMain.java:94-96 | the polled edge is a lightest edge leaving the tree |
| PrimMst.NoneLeaves | src/graph/mst/prim/main/PrimMstMain.java:91-93 | an empty queue that covers every edge out of the tree means no edge leaves it |
| PrimMst.ScanEdges | src/graph/mst/prim/main/PrimMstMain.java:76-89 | afterwards the queue holds one edge per destination, every queued edge leaves the tree, and every edge leaving the tree has a queued edge into the same vertex that is no heavier; \`IllegalStateException\` only for an overflowing \`add\`, which needs a queue smaller than the graph |
| PrimMst.Grow | src/graph/mst/prim/main/PrimMstMain.java:73-97 | the vertex joins the tree and the polled edge is a lightest edge leaving it; `IllegalStateException` only for an overflowing `add` or when no edge leaves the tree |
| PrimMst.BuildMst | src/graph/mst/prim/main/PrimMstMain.java:56-100 | `IllegalArgumentException` exactly for an unknown start; `IllegalStateException` for a count below 1, and otherwise only when a set of fewer than `vertexCount` vertices around the start has no edge leaving it; success gives `vertexCount - 1` edges, each a lightest edge out of the vertices reached before it |
| VertexDistancePriorityQueue.Slot | src/graph/dijkstra/VertexDistancePriorityQueue.java:77-83 | the slot `add` chooses: every entry before it is farther than the new one, and the entry there, if any, is not |
| VertexDistancePriorityQueue.IndexOfVertex | src/graph/dijkstra/VertexDistancePriorityQueue.java:113-119 | the first position holding the vertex, or -1 exactly when it is not queued |
| VertexDistancePriorityQueue.PlacedAt | src/graph/dijkstra/VertexDistancePriorityQueue.java:85-86 | after `add`, the entries before the slot stay, the new entry is at the slot, and the rest move one place right |
| VertexDistancePriorityQueue.PlacedDescending | src/graph/dijkstra/VertexDistancePriorityQueue.java:73-88 | `add` keeps the distances non-increasing and adds just the new entry |
| VertexDistancePriorityQueue.PlacedTies | src/graph/dijkstra/VertexDistancePriorityQueue.java:78-82 | a new entry goes before every entry at the same distance, so the earliest added is polled first |
| VertexDistancePriorityQueue.RemoveAtDescending | src/graph/dijkstra/VertexDistancePriorityQueue.java:124-125 | removing an entry keeps the order and removes just that entry |
| VertexDistancePriorityQueue.RemoveAtMultiset | src/graph/dijkstra/VertexDistancePriorityQueue.java:124-125 | removing the entry at an index removes one copy of it |
| VertexDistancePriorityQueue.ShiftedRemoved | src/graph/dijkstra/VertexDistancePriorityQueue.java:124 | the left `arraycopy` leaves the entries without the removed one |
| VertexDistancePriorityQueue.ShiftedPlaced | src/graph/dijkstra/VertexDistancePriorityQueue.java:85-87 | the right `arraycopy` and the write leave exactly the `add` result |
| VertexDistancePriorityQueue.LastIsNearest | src/graph/dijkstra/VertexDistancePriorityQueue.java:97-102 | the last entry of the ordered queue is a nearest one |
| VertexDistancePriorityQueue.HoldsIndex | src/graph/dijkstra/VertexDistancePriorityQueue.java:113-121 | on a queue with one entry per vertex, the search of `update` finds exactly the queued vertices, with their distances |
| VertexDistancePriorityQueue.HoldsAdd | src/graph/dijkstra/VertexDistancePriorityQueue.java:73-88 | adding a vertex that is not queued extends the vertex-to-distance map by it |
| VertexDistancePriorityQueue.PlacedDistinct | src/graph/dijkstra/VertexDistancePriorityQueue.java:73-88 | adding a vertex that is not queued keeps every vertex queued at most once |
| VertexDistancePriorityQueue.PlacedMatches | src/graph/dijkstra/VertexDistancePriorityQueue.java:73-88 | after the addition every entry carries the extended map's distance |
| VertexDistancePriorityQueue.PlacedCovers | src/graph/dijkstra/VertexDistancePriorityQueue.java:73-88 | after the addition every vertex of the extended map is queued |
| VertexDistancePriorityQueue.HoldsPoll | src/graph/dijkstra/VertexDistancePriorityQueue.java:97-102 | polling drops a nearest vertex from the map |
| VertexDistancePriorityQueue.HoldsRemove | src/graph/dijkstra/VertexDistancePriorityQueue.java:124-125 | removing an entry drops its vertex from the map |
| VertexDistancePriorityQueue.HoldsUpdate | src/graph/dijkstra/VertexDistancePriorityQueue.java:112-128 | `update` on a queued vertex sets its distance in the map |
| VertexDistancePriorityQueue.VertexDistancePriorityQueue.constructor | src/graph/dijkstra/VertexDistancePriorityQueue.java:39-45 | an empty queue of `maxSize` slots |
| VertexDistancePriorityQueue.VertexDistancePriorityQueue.IsEmpty | src/graph/dijkstra/VertexDistancePriorityQueue.java:52-54 | true exactly when nothing is queued |
| VertexDistancePriorityQueue.VertexDistancePriorityQueue.IsFull | src/graph/dijkstra/VertexDistancePriorityQueue.java:61-63 | true exactly when every slot is used |
| VertexDistancePriorityQueue.VertexDistancePriorityQueue.Add | src/graph/dijkstra/VertexDistancePriorityQueue.java:73-88 | `IllegalStateException` on a full queue, which changes nothing; otherwise the entry goes before the first one no farther than it |
| VertexDistancePriorityQueue.VertexDistancePriorityQueue.InsertAt | src/graph/dijkstra/VertexDistancePriorityQueue.java:85-87 | the shift and the write place the entry at the slot |
| VertexDistancePriorityQueue.VertexDistancePriorityQueue.ShiftRight | src/graph/dijkstra/VertexDistancePriorityQueue.java:85 | `arraycopy` moves the entries from the slot on one place right |
| VertexDistancePriorityQueue.VertexDistancePriorityQueue.ShiftLeft | src/graph/dijkstra/VertexDistancePriorityQueue.java:124 | `arraycopy` moves the entries after the index one place left |
| VertexDistancePriorityQueue.VertexDistancePriorityQueue.PollSmallest | src/graph/dijkstra/VertexDistancePriorityQueue.java:97-102 | `NoSuchElementException` on an empty queue; otherwise removes the last entry and returns its vertex, a nearest one |
| VertexDistancePriorityQueue.VertexDistancePriorityQueue.Update | src/graph/dijkstra/VertexDistancePriorityQueue.java:112-128 | `NoSuchElementException` when the vertex is not queued, which changes nothing; otherwise the first entry for it is removed and added again at the new distance; the size stays |
| VertexDistancePriorityQueue.VertexDistancePriorityQueue.IndexOf | src/graph/dijkstra/VertexDistancePriorityQueue.java:113-119 | the search loop finds the first slot holding the vertex, or -1 |
| VertexDistancePriorityQueue.Create | src/graph/dijkstra/VertexDistancePriorityQueue.java:39-45 | `IllegalArgumentException` exactly when `maxSize <= 0`; otherwise an empty queue of that size |
| DijkstraGraph.WeightTo | src/graph/dijkstra/graph/DijkstraListGraph.java:116-124 | no contract; defines the weight of the first edge into the vertex, or `INFINITY` when none enters it |
| DijkstraGraph.Neighbors | src/graph/dijkstra/graph/DijkstraGraph.java:26 | the neighbours of `u` are the destinations of its edges, in order |
| DijkstraGraph.Destinations | src/graph/dijkstra/graph/DijkstraListGraph.java:109-111 | the destinations of a list of edges, one per edge, in order |
| DijkstraGraph.WeightToFirst | src/graph/dijkstra/graph/DijkstraListGraph.java:116-124 | the weight reported is `INFINITY` when no edge enters `v`, and otherwise the weight of the first edge that does |
| DijkstraGraph.WeightBounds | src/graph/dijkstra/graph/DijkstraGraph.java:15 | on a well-formed bounded graph every reported weight lies in `[0, INFINITY]` (also line 33) |
| DijkstraGraph.WeightToBounds | src/graph/dijkstra/graph/DijkstraListGraph.java:116-124 | the weight found lies in the range of the edges' weights or is `INFINITY` |
| DijkstraGraph.WeightNonNegative | src/graph/dijkstra/graph/DijkstraListGraph.java:66-68 | with non-negative edge weights every reported weight is non-negative |
| DijkstraListGraph.FindIn | src/graph/dijkstra/graph/DijkstraListGraph.java:91-98 | null exactly when no edge goes from `s` to `d`; otherwise such an edge of the list |
| DijkstraListGraph.Without | src/graph/dijkstra/graph/DijkstraListGraph.java:80-85 | the edges of the list not into `d` |
| DijkstraListGraph.ReplacedEdges | src/graph/dijkstra/graph/DijkstraListGraph.java:80-86 | with one edge per destination, removing the found edge is dropping the edge into `d`, and appending the new edge keeps one edge per destination |
| DijkstraListGraph.WithoutOneEach | src/graph/dijkstra/graph/DijkstraListGraph.java:83 | dropping edges keeps one edge per destination |
| DijkstraListGraph.NoneInto | src/graph/dijkstra/graph/DijkstraListGraph.java:82 | a list with no edge into `d` is unchanged |
| DijkstraListGraph.ReplacedWeights | src/graph/dijkstra/graph/DijkstraListGraph.java:116-124 | after the replacement the weight into `d` is the new weight, and every other weight stays |
| DijkstraListGraph.ReplacedNeighbors | src/graph/dijkstra/graph/DijkstraListGraph.java:106-113 | after the replacement `d` is the last neighbour and the others keep their order |
| DijkstraListGraph.DropVertex | src/graph/dijkstra/graph/DijkstraListGraph.java:80-86 | a vertex list without the occurrences of `d` |
| DijkstraListGraph.DijkstraListGraph.constructor | src/graph/dijkstra/graph/DijkstraListGraph.java:20-23 | an empty graph |
| DijkstraListGraph.DijkstraListGraph.AddVertex | src/graph/dijkstra/graph/DijkstraListGraph.java:32-40 | a new vertex gets an empty list and goes to the end of the vertex list; a present one changes nothing |
| DijkstraListGraph.DijkstraListGraph.SetEdge | src/graph/dijkstra/graph/DijkstraListGraph.java:53-74 | `IllegalArgumentException` for identical or unknown endpoints or a negative weight, which changes nothing; otherwise `source`'s list loses its edge into `destination` and gains the new one at its end (one direction only) |
| DijkstraListGraph.DijkstraListGraph.ReplaceOrUpdateEdge | src/graph/dijkstra/graph/DijkstraListGraph.java:80-86 | the list without its edge into `destination`, with the new edge appended |
| DijkstraListGraph.DijkstraListGraph.FindEdge | src/graph/dijkstra/graph/DijkstraListGraph.java:91-98 | the first edge from `source` to `destination`, or null |
| DijkstraListGraph.DijkstraListGraph.GetVertices | src/graph/dijkstra/graph/DijkstraListGraph.java:101-103 | each added vertex once, in insertion order |
| DijkstraListGraph.DijkstraListGraph.GetNeighbors | src/graph/dijkstra/graph/DijkstraListGraph.java:106-113 | the destinations of the vertex's edges in list order; `NullPointerException` for an unknown vertex |
| DijkstraListGraph.DijkstraListGraph.GetEdgeWeightBetween | src/graph/dijkstra/graph/DijkstraListGraph.java:116-124 | the weight of the first edge into `destination`, or `INFINITY`; `NullPointerException` for an unknown source |
| DijkstraListGraph.DijkstraListGraph.GetVertexCount | src/graph/dijkstra/graph/DijkstraListGraph.java:127-129 | the number of distinct vertices added |
| DijkstraListGraph.DestinationsSnoc | src/graph/dijkstra/graph/DijkstraListGraph.java:85 | appending an edge appends its destination |
| DijkstraListGraph.ReplacedWellFormed | src/graph/dijkstra/graph/DijkstraListGraph.java:53-74 | `setEdge` keeps the graph well-formed |
| DijkstraListGraph.SetEdgeEffect | src/graph/dijkstra/graph/DijkstraListGraph.java:53-74 | after `setEdge(s, d, w)` the weight from `s` to `d` is `w`, every other weight stays, `d` is `s`'s last neighbour, and no other list changes, so no `d`→`s` edge appears |
| DijkstraMatrixGraph.RowEdges | src/graph/dijkstra/graph/DijkstraMatrixGraph.java:112-117 | no contract; defines the edges of a row from a column on: one edge into the column's vertex for each cell that is not `INFINITY`, in column order |
| DijkstraMatrixGraph.RowEdgesWeight | src/graph/dijkstra/graph/DijkstraMatrixGraph.java:122-126 | the weight the row reports into column `k`'s vertex is cell `k`, `INFINITY` included |
| DijkstraMatrixGraph.RowEdgesAt | src/graph/dijkstra/graph/DijkstraMatrixGraph.java:122-126 | from column `k` on, the weight into that column's vertex is cell `k` |
| DijkstraMatrixGraph.RowEdgesHit | src/graph/dijkstra/graph/DijkstraMatrixGraph.java:113-115 | a column holding an edge reports its cell |
| DijkstraMatrixGraph.RowEdgesSkip | src/graph/dijkstra/graph/DijkstraMatrixGraph.java:113 | a column with no edge, or into another vertex, leaves the weight to the later columns |
| DijkstraMatrixGraph.RowEdgesMiss | src/graph/dijkstra/graph/DijkstraMatrixGraph.java:112-117 | past column `k` no edge enters column `k`'s vertex |
| DijkstraMatrixGraph.RowEdgesShape | src/graph/dijkstra/graph/DijkstraMatrixGraph.java:112-117 | the row's edges leave the source with non-negative weights into vertices of the graph, one for each cell that is not `INFINITY` |
| DijkstraMatrixGraph.RowEdgesStep | src/graph/dijkstra/graph/DijkstraMatrixGraph.java:112-117 | one column of the scan adds its vertex when the cell is not `INFINITY` |
| DijkstraMatrixGraph.DijkstraMatrixGraph.constructor | src/graph/dijkstra/graph/DijkstraMatrixGraph.java:32-40 | a square matrix of `INFINITY` cells and no vertices |
| DijkstraMatrixGraph.DijkstraMatrixGraph.Row | src/graph/dijkstra/graph/DijkstraMatrixGraph.java:112 | row `i` of the matrix, one cell per column |
| DijkstraMatrixGraph.DijkstraMatrixGraph.RowsFit | src/graph/dijkstra/graph/DijkstraMatrixGraph.java:89-97 | every edge cell lies in a column of a vertex |
| DijkstraMatrixGraph.DijkstraMatrixGraph.AddVertex | src/graph/dijkstra/graph/DijkstraMatrixGraph.java:51-62 | `IllegalStateException` once `maxVertices` vertices are stored, even for a present vertex; otherwise a new vertex gets the next index and a present one changes nothing |
| DijkstraMatrixGraph.DijkstraMatrixGraph.SetEdge | src/graph/dijkstra/graph/DijkstraMatrixGraph.java:75-97 | `IllegalArgumentException` for identical or unknown endpoints or a negative weight, which changes nothing; otherwise only cell `[source][destination]` becomes `weight` |
| DijkstraMatrixGraph.DijkstraMatrixGraph.GetVertices | src/graph/dijkstra/graph/DijkstraMatrixGraph.java:100-102 | each added vertex once, in insertion order |
| DijkstraMatrixGraph.DijkstraMatrixGraph.GetNeighbors | src/graph/dijkstra/graph/DijkstraMatrixGraph.java:105-119 | `IllegalArgumentException` for an unknown vertex; otherwise, in index order, the vertex of every column whose cell is not `INFINITY` |
| DijkstraMatrixGraph.DijkstraMatrixGraph.ScanRow | src/graph/dijkstra/graph/DijkstraMatrixGraph.java:112-117 | the loop over the row gives the row's destinations |
| DijkstraMatrixGraph.DijkstraMatrixGraph.ScanCell | src/graph/dijkstra/graph/DijkstraMatrixGraph.java:113-116 | one cell of the loop adds its column's vertex when it is not `INFINITY` |
| DijkstraMatrixGraph.DijkstraMatrixGraph.IndexFinds | src/graph/dijkstra/graph/DijkstraMatrixGraph.java:114 | `getVertexByIndex` finds vertex `i` for index `i` |
| DijkstraMatrixGraph.DijkstraMatrixGraph.GetEdgeWeightBetween | src/graph/dijkstra/graph/DijkstraMatrixGraph.java:122-126 | the cell between the two vertices, `INFINITY` when there is no edge; `NullPointerException` for an unknown vertex |
| DijkstraMatrixGraph.DijkstraMatrixGraph.GetVertexCount | src/graph/dijkstra/graph/DijkstraMatrixGraph.java:129-131 | the number of distinct vertices added |
| DijkstraMatrixGraph.DijkstraMatrixGraph.ViewRow | src/graph/dijkstra/graph/DijkstraMatrixGraph.java:105-126 | a vertex's edges, as the algorithm reads them, are its row's |
| DijkstraMatrixGraph.DijkstraMatrixGraph.ViewWellFormed | src/graph/dijkstra/graph/DijkstraMatrixGraph.java:75-126 | the graph the algorithm reads is well-formed |
| DijkstraMatrixGraph.Create | src/graph/dijkstra/graph/DijkstraMatrixGraph.java:32-40 | `NegativeArraySizeException` exactly for a negative size; otherwise an empty graph |
| DijkstraAlgorithm.PathTo | src/graph/dijkstra/DijkstraAlgorithm.java:62-72 | the chain `getShortestPathTo` returns ends at the target and starts at a vertex without predecessor |
| DijkstraAlgorithm.PathToLinks | src/graph/dijkstra/DijkstraAlgorithm.java:65-69 | each vertex of the chain after the first has the one before it as its predecessor |
| DijkstraAlgorithm.PathToStep | src/graph/dijkstra/DijkstraAlgorithm.java:65-69 | the chain to `t` is the chain to its predecessor followed by `t` |
| DijkstraAlgorithm.Reversed | src/graph/dijkstra/DijkstraAlgorithm.java:70 | reversal keeps the length |
| DijkstraAlgorithm.ReversedAt | src/graph/dijkstra/DijkstraAlgorithm.java:70 | reversal reads the list back to front |
| DijkstraAlgorithm.ReversedSnoc | src/graph/dijkstra/DijkstraAlgorithm.java:70 | reversing a list grown at the end puts the new element first |
| DijkstraAlgorithm.ChainStep | src/graph/dijkstra/DijkstraAlgorithm.java:66-69 | one round of the loop keeps "chain still to walk, then reversed path" equal |
| DijkstraAlgorithm.LowerBound | src/graph/dijkstra/DijkstraAlgorithm.java:40-55 | on the final state no walk from the source is shorter than the distance of its end |
| DijkstraAlgorithm.UpperBound | src/graph/dijkstra/DijkstraAlgorithm.java:62-72 | the predecessor chain of a vertex at finite distance is a walk from the source weighing that distance |
| DijkstraAlgorithm.PathSnoc | src/graph/dijkstra/DijkstraAlgorithm.java:48 | extending a walk by an edge adds the edge's weight |
| DijkstraAlgorithm.ShortestPaths | src/graph/dijkstra/DijkstraAlgorithm.java:24-72 | a vertex's distance is at most the weight of every walk from the source to it; when finite, `getShortestPathTo` returns such a walk weighing exactly the distance; an unreachable vertex's path is just itself |
| DijkstraAlgorithm.Initials | src/graph/dijkstra/DijkstraAlgorithm.java:33-35 | after the initialising loop every listed vertex has distance 0 for the source and `INFINITY` otherwise |
| DijkstraAlgorithm.Seeded | src/graph/dijkstra/DijkstraAlgorithm.java:36 | after the initialising loop every listed vertex has no predecessor and other entries stay |
| DijkstraAlgorithm.InitOuter | src/graph/dijkstra/DijkstraAlgorithm.java:33-40 | the state after the initialising loop satisfies the main loop's invariant |
| DijkstraAlgorithm.PollStep | src/graph/dijkstra/DijkstraAlgorithm.java:41 | polling a nearest queued vertex starts its scan in the invariant |
| DijkstraAlgorithm.LowerQueued | src/graph/dijkstra/DijkstraAlgorithm.java:49-50 | a neighbour whose distance the polled vertex lowers is still queued, so `update` finds it |
| DijkstraAlgorithm.LowerSplit | src/graph/dijkstra/DijkstraAlgorithm.java:50-52 | lowering a distance keeps the queued and settled vertices apart |
| DijkstraAlgorithm.LowerTree | src/graph/dijkstra/DijkstraAlgorithm.java:51-52 | lowering through the polled vertex keeps every predecessor tight |
| DijkstraAlgorithm.LowerRelaxed | src/graph/dijkstra/DijkstraAlgorithm.java:48-52 | lowering relaxes the current edge and keeps the earlier ones relaxed |
| DijkstraAlgorithm.RelaxLower | src/graph/dijkstra/DijkstraAlgorithm.java:49-52 | recording a lowering keeps the scan's invariant one neighbour further |
| DijkstraAlgorithm.RelaxKeep | src/graph/dijkstra/DijkstraAlgorithm.java:49 | a neighbour whose distance is not lowered is already relaxed |
| DijkstraAlgorithm.Finish | src/graph/dijkstra/DijkstraAlgorithm.java:44-54 | after the scan the polled vertex joins the settled ones |
| DijkstraAlgorithm.Drained | src/graph/dijkstra/DijkstraAlgorithm.java:40 | with the queue empty, every vertex is settled and the state is a shortest-path tree |
| DijkstraAlgorithm.RerankRanked | src/graph/dijkstra/DijkstraAlgorithm.java:36 | predecessor chains stay finite after a run, even with entries left from an earlier run (also line 52) |
| DijkstraAlgorithm.DijkstraAlgorithm.constructor | src/graph/dijkstra/DijkstraAlgorithm.java:17-19 | no predecessors recorded |
| DijkstraAlgorithm.DijkstraAlgorithm.ResetState | src/graph/dijkstra/DijkstraAlgorithm.java:77-79 | every predecessor is forgotten |
| DijkstraAlgorithm.DijkstraAlgorithm.GetShortestPathTo | src/graph/dijkstra/DijkstraAlgorithm.java:62-72 | the predecessor chain from the target, in forward order; without a known predecessor just the target |
| DijkstraAlgorithm.DijkstraAlgorithm.ComputePaths | src/graph/dijkstra/DijkstraAlgorithm.java:24-56 | `IllegalArgumentException` exactly for a source outside the graph, which changes nothing; otherwise the distances and the recorded predecessors form a shortest-path tree from the source, and entries for vertices outside the graph stay |
| DijkstraAlgorithm.DijkstraAlgorithm.SettleAll | src/graph/dijkstra/DijkstraAlgorithm.java:40-55 | the main loop polls every vertex once and leaves a shortest-path tree |
| DijkstraAlgorithm.DijkstraAlgorithm.Initialize | src/graph/dijkstra/DijkstraAlgorithm.java:29-38 | every vertex starts at its initial distance with no predecessor, and the queue holds exactly those distances |
| DijkstraAlgorithm.DijkstraAlgorithm.InitVertex | src/graph/dijkstra/DijkstraAlgorithm.java:34-37 | one round of the initialising loop adds one vertex's distance, predecessor and queue entry |
| DijkstraAlgorithm.DijkstraAlgorithm.RelaxNeighbors | src/graph/dijkstra/DijkstraAlgorithm.java:42-54 | afterwards every edge out of the polled vertex is relaxed, and the queue still holds the current distances |
| DijkstraAlgorithm.DijkstraAlgorithm.RelaxEdge | src/graph/dijkstra/DijkstraAlgorithm.java:45-53 | the path through the polled vertex is taken exactly when strictly shorter: the distance drops there and the polled vertex becomes the predecessor; otherwise nothing changes |
| ExplorableGraph.FirstUnvisited | src/graph/traversal/algorithms/BaseGraphTraversal.java:31-36 | `None` exactly when every listed neighbour is visited; otherwise an unvisited neighbour with every earlier one visited, i.e. the first in list order |
| ExplorableListGraph.JoinedLists | src/graph/traversal/graph/ExplorableListGraph.java:51-52 | appending each endpoint of an edge between distinct vertices to the other's list keeps the lists closed and undirected |
| ExplorableListGraph.JoinedClosed | src/graph/traversal/graph/ExplorableListGraph.java:51-52 | after an edge is set every listed neighbour is still a vertex of the graph |
| ExplorableListGraph.JoinedSymmetric | src/graph/traversal/graph/ExplorableListGraph.java:51-52 | after an edge is set between distinct vertices every vertex is listed by each neighbour as often as it lists that neighbour |
| ExplorableListGraph.ExplorableListGraph.constructor | src/graph/traversal/graph/ExplorableListGraph.java:21-23 | a new graph has no vertices |
| ExplorableListGraph.ExplorableListGraph.AddVertex | src/graph/traversal/graph/ExplorableListGraph.java:26-31 | a new vertex gets an empty list; a present vertex keeps its list (`putIfAbsent`); the graph stays undirected |
| ExplorableListGraph.ExplorableListGraph.SetEdge | src/graph/traversal/graph/ExplorableListGraph.java:34-53 | `IllegalArgumentException` exactly for a self-edge or an unknown endpoint, with nothing changed; otherwise each endpoint is appended to the other's list and the graph stays undirected |
| ExplorableListGraph.ExplorableListGraph.GetNeighbors | src/graph/traversal/graph/ExplorableListGraph.java:56-58 | null exactly for an unknown vertex; otherwise the stored list, whose entries are all vertices of the graph and never the vertex itself |
| ExplorableListGraph.ExplorableListGraph.ViewClosed | src/graph/traversal/graph/ExplorableListGraph.java:13-59 | what the traversals see of a list graph is closed and undirected |
| ExplorableMatrixGraph.RowNeighbors | src/graph/traversal/graph/ExplorableMatrixGraph.java:74-79 | no contract; defines the neighbours a row lists from a column on: the vertex of each column whose cell is 1, in column order |
| ExplorableMatrixGraph.RowCount | src/graph/traversal/graph/ExplorableMatrixGraph.java:74-79 | the neighbours scanned from a column on list a vertex once when its column lies in range and its cell is 1, and otherwise never |
| ExplorableMatrixGraph.RowInside | src/graph/traversal/graph/ExplorableMatrixGraph.java:74-79 | every vertex a row scan yields is a vertex of the graph |
| ExplorableMatrixGraph.ExplorableMatrixGraph.constructor | src/graph/traversal/graph/ExplorableMatrixGraph.java:26-31 | a graph of `maxVertexCount` slots with no vertices, a zero counter and every cell 0 |
| ExplorableMatrixGraph.ExplorableMatrixGraph.Row | src/graph/traversal/graph/ExplorableMatrixGraph.java:74 | the row holds exactly the cells of row `i` of the matrix |
| ExplorableMatrixGraph.ExplorableMatrixGraph.AddVertex | src/graph/traversal/graph/ExplorableMatrixGraph.java:34-42 | `IllegalStateException` exactly when the counter has reached `maxVertices`, with nothing changed; otherwise the counter advances, and a new vertex gets the old counter as its index while a present one keeps its index |
| ExplorableMatrixGraph.ExplorableMatrixGraph.SetEdge | src/graph/traversal/graph/ExplorableMatrixGraph.java:45-64 | `IllegalArgumentException` exactly for a self-edge or an unknown endpoint; otherwise the two symmetric cells become 1 and every other cell keeps its value |
| ExplorableMatrixGraph.ExplorableMatrixGraph.GetNeighbors | src/graph/traversal/graph/ExplorableMatrixGraph.java:67-81 | `IllegalArgumentException` exactly for an unknown vertex; otherwise the neighbour list the traversals see |
| ExplorableMatrixGraph.ExplorableMatrixGraph.ScanRow | src/graph/traversal/graph/ExplorableMatrixGraph.java:72-80 | the loop collects, in ascending column order, the vertex owning each column whose cell is 1 |
| ExplorableMatrixGraph.ExplorableMatrixGraph.NeighborCount | src/graph/traversal/graph/ExplorableMatrixGraph.java:62-63 | a vertex lists another once when the cell between them is 1 and otherwise never (also lines 74-79) |
| ExplorableMatrixGraph.ExplorableMatrixGraph.ViewClosed | src/graph/traversal/graph/ExplorableMatrixGraph.java:14-82 | what the traversals see of a matrix graph is closed and undirected |
| ExplorableMatrixGraph.Create | src/graph/traversal/graph/ExplorableMatrixGraph.java:26-31 | `NegativeArraySizeException` exactly for a negative size; otherwise an empty graph with every cell 0 |
| BaseGraphTraversal.ReachesSelf | src/graph/traversal/algorithms/BaseGraphTraversal.java:43-46 | the start vertex reaches itself |
| BaseGraphTraversal.ReachesNext | src/graph/traversal/algorithms/BaseGraphTraversal.java:29-37 | a neighbour of a reachable vertex is reachable |
| BaseGraphTraversal.SaturatedReaches | src/graph/traversal/algorithms/BaseGraphTraversal.java:29-37 | a neighbour-closed set containing the start holds every vertex reachable from it |
| BaseGraphTraversal.WalkInside | src/graph/traversal/algorithms/BaseGraphTraversal.java:29-37 | a walk that starts in a neighbour-closed set never leaves it |
| BaseGraphTraversal.SeeNew | src/graph/traversal/algorithms/BaseGraphTraversal.java:43-46 | visiting a new vertex of the graph strictly shrinks the set of unvisited vertices (the loops terminate) |
| BaseGraphTraversal.SeeMore | src/graph/traversal/algorithms/BaseGraphTraversal.java:43-46 | visiting more leaves no more vertices unvisited |
| BaseGraphTraversal.VisitDistinct | src/graph/traversal/algorithms/BaseGraphTraversal.java:43-46 | visiting an unvisited vertex keeps the path equal to the visited set and free of repeats |
| BaseGraphTraversal.GraphTraversal.constructor | src/graph/traversal/algorithms/BaseGraphTraversal.java:18-21 | nothing visited, empty path |
| BaseGraphTraversal.GraphTraversal.FindUnvisitedNeighbor | src/graph/traversal/algorithms/BaseGraphTraversal.java:29-37 | the graph's exception for a vertex it does not hold; otherwise the first unvisited neighbour in list order, or null |
| BaseGraphTraversal.GraphTraversal.Visit | src/graph/traversal/algorithms/BaseGraphTraversal.java:43-46 | the vertex joins the visited set and is appended to the path, even when it was visited before |
| BaseGraphTraversal.GraphTraversal.GetTraversalPath | src/graph/traversal/algorithms/BaseGraphTraversal.java:49-51 | the path holds exactly the visited vertices |
| BaseGraphTraversal.GraphTraversal.ResetState | src/graph/traversal/algorithms/BaseGraphTraversal.java:54-57 | nothing visited, empty path |
| DfsTraversal.Dfs | src/graph/traversal/algorithms/DfsTraversal.java:19-27 | no contract; defines the outcome of the loop from a stack: the final path, or the graph's exception for a vertex it does not hold |
| DfsTraversal.DfsSucceeds | src/graph/traversal/algorithms/DfsTraversal.java:19-27 | when every stacked vertex is in the graph the loop ends without an exception |
| DfsTraversal.DfsExtends | src/graph/traversal/algorithms/DfsTraversal.java:19-27 | the loop only appends to the path |
| DfsTraversal.DfsDistinct | src/graph/traversal/algorithms/DfsTraversal.java:19-27 | a path without repeats stays without repeats |
| DfsTraversal.DfsSound | src/graph/traversal/algorithms/DfsTraversal.java:19-27 | when every stacked vertex is reachable from the start, every vertex appended is too |
| DfsTraversal.DfsComplete | src/graph/traversal/algorithms/DfsTraversal.java:19-27 | a vertex is popped only once its neighbours are visited, so the final path is closed under neighbours |
| DfsTraversal.TraversalFromFresh | src/graph/traversal/algorithms/DfsTraversal.java:15-28 | from a fresh state the traversal ends normally exactly when the start is in the graph, and the path then starts with the start vertex, has no repeats and holds exactly the vertices reachable from it |
| DfsTraversal.Traverse | src/graph/traversal/algorithms/DfsTraversal.java:15-28 | the loop ends in the path the search function gives; for a start vertex outside the graph, the graph's exception after the start was visited |
| DfsRecursiveTraversal.Traverse | src/graph/traversal/algorithms/DfsRecursiveTraversal.java:12-14 | the recursive search ends with the same path, or the same exception, as the explicit-stack search from the same state |
| DfsRecursiveTraversal.RecursiveDfs | src/graph/traversal/algorithms/DfsRecursiveTraversal.java:19-27 | one call leaves the state the explicit-stack search reaches from the stack made of this vertex over the pending callers, or fails as it does |
| BfsTraversal.Bfs | src/graph/traversal/algorithms/BfsTraversal.java:19-26 | no contract; defines the outcome of the two loops from a head being expanded and a queue behind it: the final path, or the graph's exception for a vertex it does not hold |
| BfsTraversal.BfsSucceeds | src/graph/traversal/algorithms/BfsTraversal.java:19-26 | when every pending vertex is in the graph the loop ends without an exception |
| BfsTraversal.BfsExtends | src/graph/traversal/algorithms/BfsTraversal.java:19-26 | the loop only appends to the path |
| BfsTraversal.BfsDistinct | src/graph/traversal/algorithms/BfsTraversal.java:19-26 | a path without repeats stays without repeats |
| BfsTraversal.BfsSound | src/graph/traversal/algorithms/BfsTraversal.java:19-26 | when every pending vertex is reachable from the start, every vertex appended is too |
| BfsTraversal.BfsComplete | src/graph/traversal/algorithms/BfsTraversal.java:19-26 | a vertex stops being pending only once its neighbours are visited, so the final path is closed under neighbours |
| BfsTraversal.CentreIn | src/graph/traversal/algorithms/BfsTraversal.java:17-18 | the start lies in every ball around itself |
| BfsTraversal.BallEdge | src/graph/traversal/algorithms/BfsTraversal.java:22-25 | a neighbour of a vertex within `k` hops is within `k + 1` hops |
| BfsTraversal.BallBack | src/graph/traversal/algorithms/BfsTraversal.java:22-25 | every vertex within `k` hops other than the start is the neighbour of one within `k - 1` hops |
| BfsTraversal.ExploredNeighbour | src/graph/traversal/algorithms/BfsTraversal.java:22-25 | a visited vertex that is no longer pending has all its neighbours visited |
| BfsTraversal.LayeredStart | src/graph/traversal/algorithms/BfsTraversal.java:17-18 | the state right after the start vertex is queued is in layer order |
| BfsTraversal.LayeredPop | src/graph/traversal/algorithms/BfsTraversal.java:20 | removing the head of the queue keeps the layers and the explored vertices |
| BfsTraversal.PopSplits | src/graph/traversal/algorithms/BfsTraversal.java:20 | the head and the rest of the queue are the queue, and every other queued vertex stays in the rest |
| BfsTraversal.NewIsFarther | src/graph/traversal/algorithms/BfsTraversal.java:22-24 | an unvisited neighbour of the head is one hop farther from the start than the head |
| BfsTraversal.LayeredSee | src/graph/traversal/algorithms/BfsTraversal.java:23-24 | visiting and queueing an unvisited neighbour of the head keeps the layers |
| BfsTraversal.LayeredDone | src/graph/traversal/algorithms/BfsTraversal.java:19-22 | once the head has no unvisited neighbour, the queue alone is in layer order |
| BfsTraversal.LayerBelow | src/graph/traversal/algorithms/BfsTraversal.java:19-22 | a vertex nearer than the new front is visited and no longer queued |
| BfsTraversal.BfsLayered | src/graph/traversal/algorithms/BfsTraversal.java:19-26 | the loop keeps its layers, so the path it returns lists vertices in non-decreasing hop distance from the start |
| BfsTraversal.TraversalFromFresh | src/graph/traversal/algorithms/BfsTraversal.java:15-27 | from a fresh state the traversal ends normally exactly when the start is in the graph, and the path then starts with the start, has no repeats, holds exactly the vertices reachable from it and lists them by hop distance |
| BfsTraversal.Traverse | src/graph/traversal/algorithms/BfsTraversal.java:15-27 | the two loops end in the path the search function gives; for a start vertex outside the graph, the graph's exception after the start was visited |
| UndirectedUnweightedListGraph.UndirectedUnweightedListGraph.constructor | src/graph/traversal/main/UndirectedUnweightedListGraph.java:27-33 | every vertex of the array, and no other, starts with an empty list |
| UndirectedUnweightedListGraph.UndirectedUnweightedListGraph.SetEdge | src/graph/traversal/main/UndirectedUnweightedListGraph.java:37-56 | `IllegalArgumentException` exactly for a self-edge or an unknown endpoint, with nothing changed; otherwise each endpoint is appended to the other's list and the graph stays undirected |
| UndirectedUnweightedListGraph.UndirectedUnweightedListGraph.FindUnvisitedAdjacent | src/graph/traversal/main/UndirectedUnweightedListGraph.java:59-71 | `IllegalArgumentException` exactly for an unknown vertex; otherwise the first unvisited neighbour in list order, or null |
| UndirectedUnweightedListGraph.Create | src/graph/traversal/main/UndirectedUnweightedListGraph.java:22-34 | `IllegalArgumentException` exactly for an empty array; otherwise a graph of exactly the array's vertices with no edges |
| UndirectedUnweightedMatrixGraph.Indexed | src/graph/traversal/main/UndirectedUnweightedMatrixGraph.java:25-30 | no contract; defines the index map after `indicesMap.put(vertices[i], i)` for each position in turn |
| UndirectedUnweightedMatrixGraph.IndexedLast | src/graph/traversal/main/UndirectedUnweightedMatrixGraph.java:25-30 | the index map holds exactly the array's vertices, each at the position of its last occurrence |
| UndirectedUnweightedMatrixGraph.FindVertexByIndex | src/graph/traversal/main/UndirectedUnweightedMatrixGraph.java:74-81 | a vertex the map sends to the index, or null exactly when none does; for an injective map the only such vertex |
| UndirectedUnweightedMatrixGraph.UndirectedUnweightedMatrixGraph.constructor | src/graph/traversal/main/UndirectedUnweightedMatrixGraph.java:23-31 | each vertex at the index of its last occurrence, one row per array slot, every cell 0 |
| UndirectedUnweightedMatrixGraph.UndirectedUnweightedMatrixGraph.Row | src/graph/traversal/main/UndirectedUnweightedMatrixGraph.java:62 | the row holds exactly the cells of row `i` of the matrix |
| UndirectedUnweightedMatrixGraph.UndirectedUnweightedMatrixGraph.SetEdge | src/graph/traversal/main/UndirectedUnweightedMatrixGraph.java:35-54 | `IllegalArgumentException` exactly for a self-edge or an unknown endpoint; otherwise the two symmetric cells become 1 and every other cell keeps its value |
| UndirectedUnweightedMatrixGraph.UndirectedUnweightedMatrixGraph.FindUnvisitedAdjacent | src/graph/traversal/main/UndirectedUnweightedMatrixGraph.java:57-71 | `IllegalArgumentException` exactly for an unknown vertex; otherwise the unvisited neighbour of lowest index, or null |
| UndirectedUnweightedMatrixGraph.UndirectedUnweightedMatrixGraph.NeighborCount | src/graph/traversal/main/UndirectedUnweightedMatrixGraph.java:52-53 | a vertex lists another once when the cell between them is 1 and otherwise never, so adjacency is symmetric (also lines 62-68) |
| UndirectedUnweightedMatrixGraph.Create | src/graph/traversal/main/UndirectedUnweightedMatrixGraph.java:19-32 | `IllegalArgumentException` exactly for an empty array; otherwise a graph of the array's vertices with no edges |

## Left out

- KruskalMst.BuildMst: proves that the kept edges are input edges, form a forest (no kept edge joins two vertices the earlier ones already link) and number at most one fewer than the vertices. It does not prove that their total weight is the least of any spanning forest: the cut-property exchange argument is not part of this model.
- PrimMst.BuildMst: proves `vertexCount - 1` edges, each a lightest edge leaving the vertices reached before it, and proves that an `IllegalStateException` means a disconnected graph. It does not prove that the result has the least total weight of any spanning tree: the exchange argument is not part of this model.
- DynamicArray.DynamicArray.Resize: capacities are unbounded integers, so the doubling `capacity * 2` in `add` never wraps to a negative `int` as it does in Java past 2^30 elements.
- DynamicArrayStack.DynamicArrayStack.Resize: the doubling `data.length * 2` in `push` is unbounded here too.
- DynamicArrayQueue.DynamicArrayQueue.Resize: the doubling `2 * data.length` in `enqueue` is unbounded here too.
- HashTable.IsPrime: decides primality over unbounded integers. Java's test `i * i <= number` (src/hashtable/HashTable.java:112) wraps once `i` reaches 46341, which the loop can reach only for `number >= 46340 * 46340 = 2147395600`. On such a prime the Java loop may run on to `i == number` and answer false (it does for `Integer.MAX_VALUE`, a prime). Composites and every `number < 2147395600` are decided as Java does (`SquareFits`).
- HashTable.NextPrime: returns the least prime at or above `start` over unbounded integers. Java's `n++` (src/hashtable/HashTable.java:100) wraps at `Integer.MAX_VALUE` to `Integer.MIN_VALUE`, and Java's `isPrime` can misjudge the primes from 2147395600 up, so for a `start` whose least prime is not below 2147395600 Java may return another value (2 for `start = Integer.MAX_VALUE`).
- HashTable.HashTable.constructor: the bucket count is the least prime at or above `capacity` over unbounded integers. It inherits the two gaps above: for a `capacity` from 2147395600 up, Java may choose another count (`new HashTable(Integer.MAX_VALUE, Division)` gets 2 buckets). The same holds for the `nextPrime(2 * length)` of `put`.
- HashTable.Create: the same gap as the constructor: from a `capacity` of 2147395600 up, Java may choose another bucket count.
- HashTable.HashTable.Rehash: `oldTable.length * 2` is unbounded here.
- KruskalMst.SortByWeight: sorts by the exact integer weights. The Java comparator `edge1.getWeight() - edge2.getWeight()` (src/graph/mst/kruskal/KruskalMstMain.java:66) overflows when two weights lie more than 2^31 - 1 apart, and then misorders them.
- MergeSort.MergeSortRec: the midpoint `(start + end) / 2` is unbounded here; in Java it overflows only for arrays of more than 2^30 elements.
- DijkstraAlgorithm.DijkstraAlgorithm.ComputePaths: requires `Bounded`, i.e. every edge weight is at most `INFINITY = Integer.MAX_VALUE / 2` = 1073741823 (src/graph/dijkstra/graph/DijkstraGraph.java:15). The Java graphs accept any non-negative `int` weight (`setEdge` rejects only negative ones), so graphs with a weight in (1073741823, 2147483647] are not covered. For them the Java sum `dist + edgeWeight` (src/graph/dijkstra/DijkstraAlgorithm.java:48) can wrap to a negative `int`, which the model does not follow. Within `Bounded` every distance is at most `INFINITY`, so that sum stays at most 2147483646 and never wraps.
- HashTable.HashTable.Hash: the table indexes its buckets with the corrected modulo `DivisionHash` (the true absolute value of the hash code). The Java `Math.abs(key.hashCode()) % bucketArray.length` (src/hashtable/HashTable.java:33) gives a negative index for a key whose hash code is `Integer.MIN_VALUE`, and then `put`, `get` and `remove` throw `ArrayIndexOutOfBoundsException`. The class does not model that exception; the as-written index is modelled on its own (see Findings).
- HashTable.HashCode: runs `h = 31 * h + c` over Dafny characters, which are Unicode scalar values. Java runs it over UTF-16 code units, so the two differ for characters outside the Basic Multilingual Plane.
- The Multiplication hash of `HashTable` (src/hashtable/HashTable.java:35-37) works in floating point and is not part of this model; the table always uses the Division hash.
- PrimListGraph.PrimListGraph.SetEdge: vertices are their labels, so the self-loop check `source == destination` compares labels. Java compares object identity, and it accepts an edge between two distinct vertex objects with the same label. The same holds for `PrimMatrixGraph.SetEdge`, `DijkstraListGraph.SetEdge`, `DijkstraMatrixGraph.SetEdge`, `ExplorableListGraph.SetEdge`, `ExplorableMatrixGraph.SetEdge` and both `UndirectedUnweighted*Graph.SetEdge`. Map lookups use `equals`, which for `VertexImpl` is label equality, so those agree with Java.
- Null arguments are not modelled: no vertex, edge, key or array is null here. Every `IllegalArgumentException` the Java code throws for a null argument, and every `NullPointerException` a null would cause, is absent.
- QuickSortHoare.Sort: requires `0 <= low` and `high < a.Length` whenever `low < high`. Java answers out-of-range bounds with an `ArrayIndexOutOfBoundsException`, which the model does not follow.
- QuickSortLomuto.Sort: requires `0 <= low` and `high < a.Length` whenever `low < high`, for the same reason.
- AvlTree.AvlTree.InsertRecursive: requires the subtree to be AVL-balanced. The class only ever holds balanced trees, but on an arbitrary tree the Java double rotations can dereference a missing grandchild.
- `Edge` is a datatype with structural equality. `EdgePriorityQueue.replace` and the `List.remove` of the Dijkstra list graph rely on that equality, which the Java `Edge` class is assumed to provide.
- The buckets of `HashTable` are sequences of entries, not linked chain nodes; a null bucket is an empty sequence. In-place relinking and the aliasing of chain nodes are not modelled.
- The values a `HashTable` stores are a type parameter. The Java class stores `double`s but never computes with them.
- `HashMap` iteration order is not modelled. `VertexUtil.getVertexByIndex` and the private `getVertexByIndex` of the traversal matrix graph are specified to return a vertex with the given index, which is the only one whenever the index map is injective.
- Output is left out: `print`, `println`, `toString`, ANSI colours, the `visit()` output of the tree traversals, `BstUtils.handleDuplicateKey` and the "tree is empty" and "not found" messages. The traversals return the visit sequence instead.
- `BinaryTreePrinter` is console rendering in floating point and is not part of this model.
- Some demo drivers only print: the `main` methods of BinarySearchTreeMain, StaticArrayMain, ArrayListMain, HeapSortMain, QuickSortMain, DijkstraMain, TraversalMain, PrimMstMain and the sort classes. Their scenarios are covered by the operations they call. The stack, queue, linked-list, hash-table, union-find, dynamic-array and Kruskal demos are modelled as concrete runs.
- The graph factories and the enums (`GraphFactory`, `GraphTraversalFactory`, `TraversalMethod`, `GraphRepresentation`, `TraversalNature`) are pure dispatch and are not part of this model.
- The interfaces and data holders (`ITree`, `INode`, `Stack`, `Queue`, the graph and vertex interfaces, `Node`, `AvlNode`, `GraphVertex`, `VertexImpl`) are folded into the classes that use them.
- Running out of memory (`OutOfMemoryError`, stack overflow in the recursive methods) is not modelled.

## Findings

| source | as written | input that shows it | evidently intended | confidence | as-written member | corrected member |
|---|---|---|---|---|---|---|
| src/lineards/linkedlist/LinkedList.java:85-101 | after a matching head is unlinked, the method does not return: the search for the value runs on over the remaining nodes | deleting `'A'` from `[A]` throws `NullPointerException`; from `[A, B]` it removes the head and still throws `NoSuchElementException`; from `[A, B, A]` it removes both `A`s | delete only the first node holding the value and throw only when none does, as `DoubleEndedLinkedList.deleteByValue` does | high; not executed | LinkedList.DeleteByValueOnlyNode, LinkedList.DeleteByValueHeadOnly, LinkedList.DeleteByValueHeadAndLater, LinkedList.LinkedList.DeleteByValue | LinkedList.LinkedList.DeleteByValueCorrected, ListNode.DeleteLaterMatches |
| src/lineards/linkedlist/LinkedList.java:111-121 | a one-node list is emptied, and then `head.next` is read on the now-null head | `deleteLast` on `[A]` throws `NullPointerException` | a one-node list becomes empty without an exception, as `DoubleEndedLinkedList.deleteLast` does | high; not executed | LinkedList.DeleteLastAgrees, LinkedList.LinkedList.DeleteLast | LinkedList.LinkedList.DeleteLastCorrected |
| src/hashtable/HashTable.java:33 | `Math.abs(key.hashCode()) % bucketArray.length`, where `Math.abs(Integer.MIN_VALUE)` is still negative | the key `"polygenelubricants"` hashes to `Integer.MIN_VALUE` and gets index -3 in a table of 5 buckets, so `put` throws `ArrayIndexOutOfBoundsException` | an index in `[0, length)` for every key | high; not executed | HashTable.MinHashCodeIndex | HashTable.DivisionHash, HashTable.HashTable.Hash |
| src/binarytree/bst/red_black/RedBlackTree.java:421-423 | the empty tree's `root` is the sentinel, a real node with key 0 (src/binarytree/bst/red_black/RbNode.java:50-55), and `searchRecursive` compares its key before reaching a null child | `search(0)` on a new tree returns the sentinel node, not null | null, since the documented result is "null if the key isn't found" and an empty tree holds no key | high; not executed | RbSearch.EmptySearchFindsSentinel, RedBlackTree.RedBlackTree.Search | RbSearch.SearchIntended, RedBlackTree.RedBlackTree.SearchCorrected |
