# Merge sort task, chained hash table and reversed linked list

A Dafny model of three small Java components.

- **`MergeSortTask`**: a fork/join merge sort. A list of one element is returned as it
  is. A longer list is split at `size / 2` into two fresh copies. Each copy is sorted by a
  sub-task, and `mergeResults` merges the two sorted halves back into the task's own
  list in place. The merge takes the left element on ties.
- **`HashTable<K, V>`**: a separate-chaining hash table. Its state is the
  fields `capacity`, `table` (an array of bucket chains) and `size`.
  - `put` replaces the value of a key already in the key's bucket, or links a new node
    at the end of that bucket.
  - When `size` goes past 80% of `capacity`, the private `resize` swaps in an array 1.8
    times as large and puts every old node into it.
- **`DemoApp`**: `createLinkedList` builds a singly linked list from an array.
  `printReversedRecursively` and `printReversedUsingStack` print the list's elements in
  reverse order, separated by `" -> "`.

Files:

- `wrappers.dfy`: `Option` (`None` stands for Java's `null`).
- `merge_sort.dfy`: module `MergeSort`. The functions `Merge` and `Sort` are the
  specification. The class `MergeSortTask` keeps the list as an `array` and sorts it with
  a recursive `Compute` and an imperative `MergeResults`. The lemmas prove that the result
  is sorted, a permutation and stable.
- `hash_table.dfy`: module `HashTables`. The class `HashTable` holds `capacity`, `table`
  (an `array` of buckets, each bucket the sequence of its chain's nodes, head first) and
  `size`. A ghost map `contents` is the key-value map the table stands for. `Put` and
  `Resize` call each other as in the source. The invariant `Valid` says four things:
  - every node sits in the bucket of its key;
  - no bucket holds a key twice;
  - `size` counts the entries;
  - the table is at most 80% full.
- `reversed_list.dfy`: module `ReversedLinkedList`. It has a `Node` class with `element`
  and `next`. A ghost sequence of nodes is the path from the head. The printed output is
  a returned sequence of tokens: `Elem(x)` for an element and `Arrow` for `" -> "`.

Modelling choices:

- `compareTo` is a function `cmp: (T, T) -> int`. The sort only asks whether
  `cmp(x, y) <= 0`. Sortedness and stability are proved when `<= 0` is a total preorder.
  The permutation property holds for any `cmp` (one that never throws).
- `hashCode` is a function `hash: K -> int`. Keys are compared with `==`, which stands
  for Java's reference comparison (`==` in `put`).
- `0.8F` and `1.8F` are integer arithmetic:
  - the threshold test `size > capacity * 0.8F` is `size * 5 > capacity * 4`;
  - the growth `capacity *= 1.8F` is `capacity * 9 / 5`.

  Both agree with the Java float arithmetic at every capacity below 11418291 that the
  table reaches from 16; the last capacity where they agree is 6343495.
- The source's `%` truncates toward zero. `JavaRem` models it explicitly, so the bucket
  index is `|h| mod capacity` for negative hash codes too.
- A `null` key is `None`. `put`'s result is `Option<V>`, where `None` is the `null`
  returned for a new key.
- The print routines have no `modifies` clause, so Dafny checks that they change no node.

## Model

| member | source | states |
|---|---|---|
| MergeSort.Halves | 9/fork-merge-sort/MergeSortTask.java:20-23 | the two copies put together are the list; the left has `size / 2` elements, the right `size - size / 2` |
| MergeSort.Merge | 9/fork-merge-sort/MergeSortTask.java:31-53 | the merge has as many elements as both halves together |
| MergeSort.MergeFrom | 9/fork-merge-sort/MergeSortTask.java:38-52 | merging from read positions `i`, `j` writes as many elements as the two halves have left to read |
| MergeSort.MergeFromTakesLeft | 9/fork-merge-sort/MergeSortTask.java:39-40 | when the right side is used up or `compareTo <= 0` (ties included), the next element written is the left one, and the merge continues from `i + 1` |
| MergeSort.MergeFromTakesRight | 9/fork-merge-sort/MergeSortTask.java:41-42 | otherwise the next element written is the right one, and the merge continues from `j + 1` |
| MergeSort.WriteLeft | 9/fork-merge-sort/MergeSortTask.java:40 | writing `left[i]` at position `i + j` keeps "what is written, then the rest of the merge" equal to the whole merge |
| MergeSort.WriteRight | 9/fork-merge-sort/MergeSortTask.java:42 | the same for writing `right[j]` |
| MergeSort.MergeFromExhausted | 9/fork-merge-sort/MergeSortTask.java:46-52 | once one side is used up, the merge is the rest of the left followed by the rest of the right, which is what the two copying loops write |
| MergeSort.MergeFromIsMerge | 9/fork-merge-sort/MergeSortTask.java:38-52 | the index-based merge from `i`, `j` equals `Merge` of the remaining suffixes |
| MergeSort.MergeFromStart | 9/fork-merge-sort/MergeSortTask.java:31-53 | what `mergeResults` writes from positions 0, 0 is `Merge` of the two halves |
| MergeSort.Sort | 9/fork-merge-sort/MergeSortTask.java:15-29 | what `compute` leaves in the list, which keeps its length; defined only for non-empty lists, since an empty list never reaches the base case |
| MergeSort.MergePermutation | 9/fork-merge-sort/MergeSortTask.java:31-53 | the merge's multiset is the union of the halves' multisets |
| MergeSort.MergeSortPermutation | 9/fork-merge-sort/MergeSortTask.java:15-29 | the sorted list is a permutation of the input |
| MergeSort.MergeSorted | 9/fork-merge-sort/MergeSortTask.java:38-52 | merging two sorted halves gives a sorted list |
| MergeSort.MergeSortSorted | 9/fork-merge-sort/MergeSortTask.java:15-29 | the result of the sort is sorted ascending under `compareTo` |
| MergeSort.MergeStable | 9/fork-merge-sort/MergeSortTask.java:38-44 | with the left half sorted, for every `x` the elements equivalent to `x` come out left ones first, each side in its own order |
| MergeSort.MergeSortStable | 9/fork-merge-sort/MergeSortTask.java:15-29 | the sort is stable: equivalent elements keep their relative order |
| MergeSort.MergeOrdered | 9/fork-merge-sort/MergeSortTask.java:38-52 | when no right element is below a left one, the merge is the left half followed by the right |
| MergeSort.MergeSortOfSorted | 9/fork-merge-sort/MergeSortTask.java:15-29 | an already sorted list comes back unchanged |
| MergeSort.MergeSortIdempotent | 9/fork-merge-sort/MergeSortTask.java:15-29 | sorting a sorted result again changes nothing |
| MergeSort.MergeSortTask.constructor | 9/fork-merge-sort/MergeSortTask.java:10-12 | the task holds the given list |
| MergeSort.MergeSortTask.Compute | 9/fork-merge-sort/MergeSortTask.java:15-29 | returns the very list it was given, now holding `Sort` of its old contents; it is a permutation of them, a one-element list is unchanged, and the list is sorted when `compareTo` is a total preorder |
| MergeSort.MergeSortTask.MergeResults | 9/fork-merge-sort/MergeSortTask.java:31-53 | overwrites the list, which is as long as both halves together, with their merge; the loop keeps `resultIndex == leftIndex + rightIndex` |
| MergeSort.MergeSortTask.CopyRest | 9/fork-merge-sort/MergeSortTask.java:46-52 | copies the rest of one half to the list from `resultIndex` on, leaves what lies before and after unchanged, and returns the position after the last one written |
| HashTables.JavaRem | 4/hash-table/HashTable.java:48 | Java's `%`: the remainder lies strictly between `-b` and `b`, has the dividend's sign, and its magnitude is `\|a\|` modulo `b` |
| HashTables.BucketIndex | 4/hash-table/HashTable.java:48 | `Math.abs(hashCode % capacity)` lies in `[0, capacity)` and equals `\|hashCode\|` modulo `capacity` |
| HashTables.ChainPut | 4/hash-table/HashTable.java:53-71 | the chain grows by one node exactly when its key was absent |
| HashTables.ChainPutFind | 4/hash-table/HashTable.java:53-71 | after the put, the key finds the new value and every other key finds what it found before |
| HashTables.ChainPutNodes | 4/hash-table/HashTable.java:53-71 | the put chain holds only old nodes and the new node |
| HashTables.ChainPutNoDup | 4/hash-table/HashTable.java:53-71 | a put keeps the keys of a chain distinct |
| HashTables.FirstMatch | 4/hash-table/HashTable.java:53-69 | when the walk stops at the first node with the key, the old value is that node's value and the put overwrites only that node's value |
| HashTables.NoMatch | 4/hash-table/HashTable.java:61-71 | when no node has the key, the lookup finds nothing and the put links `Node(key, value)` after the last node |
| HashTables.FindAbsent | 4/hash-table/HashTable.java:61-70 | a walk along a chain without the key finds nothing |
| HashTables.EmptyRepresents | 4/hash-table/HashTable.java:20-22 | a table of empty buckets stands for the empty map |
| HashTables.PutRepresents | 4/hash-table/HashTable.java:48-74 | putting the key into its bucket keeps every node in its key's bucket and no key twice, and the table then stands for the map with the key set to the value |
| HashTables.DropHeadRepresents | 4/hash-table/HashTable.java:94-97 | the head node of an old bucket is an entry of the map; unlinking it leaves a table that stands for the map without that key |
| HashTables.AllEmptyRepresents | 4/hash-table/HashTable.java:93-99 | once every old bucket is drained, no entry is left behind |
| HashTables.NodeCount | 4/hash-table/HashTable.java:72-74 | a table that stands for a map holds exactly one node per entry, so `size` is the number of chain nodes |
| HashTables.ResizeRoom | 4/hash-table/HashTable.java:76-90 | the new capacity is larger, and a table at most one entry past the threshold is below the new threshold, so the puts made by `resize` never resize again |
| HashTables.HashTable.constructor | 4/hash-table/HashTable.java:20-27 | a new table has capacity 16, 16 empty buckets, size 0 and no entries |
| HashTables.HashTable.WithElement | 4/hash-table/HashTable.java:29-31 | the table holds exactly the element's entry, or nothing when its key is `null`, and keeps capacity 16 |
| HashTables.HashTable.Put | 4/hash-table/HashTable.java:42-80 | a `null` key changes nothing and returns `null`; otherwise the key maps to the value and the old value (or `null`) is returned; size grows by one exactly for a new key; without a resize only the key's bucket changes, into `ChainPut` of it; with one the capacity becomes `capacity * 9 / 5`; the table stays valid and at most 80% full |
| HashTables.HashTable.Walk | 4/hash-table/HashTable.java:53-70 | the walk stops at the first node with the key, or after the last node when there is none |
| HashTables.HashTable.Resize | 4/hash-table/HashTable.java:87-100 | capacity grows strictly, to `capacity * 9 / 5`, in a fresh array; the entries and the size are unchanged |
| HashTables.HashTable.Refill | 4/hash-table/HashTable.java:93-99 | every entry of the old table ends up in the new one, and all old buckets are left empty |
| HashTables.HashTable.Drain | 4/hash-table/HashTable.java:94-98 | empties one old bucket into the new table without resizing it, and leaves the other old buckets unchanged |
| HashTables.HashTable.MoveHead | 4/hash-table/HashTable.java:95-97 | puts the head of an old bucket into the new table, then unlinks it from the old bucket |
| ReversedLinkedList.CreateLinkedList | 5/reversed-linked-list/DemoApp.java:19-30 | `null` for a `null` or empty array; otherwise walking `next` from the head visits new nodes holding the array's elements in order and ends at `null` |
| ReversedLinkedList.PrintReversedRecursively | 5/reversed-linked-list/DemoApp.java:42-51 | prints the list's elements in reverse order, separated by arrows; a single node prints just its element; the list is not modified |
| ReversedLinkedList.PrintReversedUsingStack | 5/reversed-linked-list/DemoApp.java:63-79 | prints exactly the same tokens as the recursive routine; the list is not modified |
| ReversedLinkedList.ReverseAt | 5/reversed-linked-list/DemoApp.java:73-74 | position `i` of the printed order holds the element `i` places from the end |
| ReversedLinkedList.ReverseReverse | 5/reversed-linked-list/DemoApp.java:63-79 | reversing the printed order again gives the list's order |
| ReversedLinkedList.ReverseCons | 5/reversed-linked-list/DemoApp.java:47-48 | the head's element is printed last |
| ReversedLinkedList.JoinedSnoc | 5/reversed-linked-list/DemoApp.java:47-48 | printing one more element after the rest adds one arrow and that element |
| ReversedLinkedList.JoinedAt | 5/reversed-linked-list/DemoApp.java:73-77 | the printed tokens alternate: elements at even positions, an arrow between consecutive elements, none after the last |
| ReversedLinkedList.UnjoinJoined | 5/reversed-linked-list/DemoApp.java:73-77 | dropping the arrows from the output gives back the printed elements |
| ReversedLinkedList.ExampleOutput | 5/reversed-linked-list/DemoApp.java:36-37 | 4, 3, 9, 1 prints as `1 -> 9 -> 3 -> 4` |
| ReversedLinkedList.Demo | 5/reversed-linked-list/DemoApp.java:6-10 | both routines print `1 -> 9 -> 3 -> 4` for the list 4, 3, 9, 1 |

## Left out

- Fork/join scheduling (`RecursiveTask`, `fork`, `join`) is not modelled. The forked left half is sorted by an ordinary recursive call on its own copy. The two halves are independent copies, so the values are the same.
- MergeSort.MergeSortTask.Compute assumes `compareTo` never throws: `cmp` is a total, pure function over plain values (`T(!new)`), so lists with `null` elements, on which Java's `mergeResults` throws NullPointerException at `compareTo`, are not modelled; the permutation property holds of the model, not of such a Java run. A `null` list, on which `compute` throws NullPointerException, is excluded by the non-null `array` type.
- HashTables.HashTable.WithElement does not model a `null` element: Java's `HashTable(null)` throws NullPointerException when reading `element.key`, while the model's `element` is a non-null value.
- `compute` on an empty list: the source recurses forever, because both halves are empty again. The model requires a non-empty list instead of modelling the non-termination.
- MergeSort.MergeSortTask.MergeResults: its second and third loops are the helper method `CopyRest`, called once per half. The behaviour is the same.
- `java.util.ArrayList` and `java.util.Stack` internals are not modelled. The list is an `array`; the copies and the stack are sequences.
- Console output is left out: `processNullKey`, `printResizeWarning`, `printTable`, and the printing in `DemoApp.main`. Only the tokens of the two `printReversed…` routines are modelled.
- HashTables.HashTable.Put and `HashTables.HashTable.Resize` use integer forms of `0.8F` and `1.8F`. These agree with the float arithmetic for every capacity below 11418291; the last capacity where they agree is 6343495. At 11418291, Java grows to 20552924 while `capacity * 9 / 5` is 20552923, and Java's threshold first holds at size 9134634 while `size * 5 > capacity * 4` first holds at 9134633.
- HashTables.HashTable.Put and `HashTables.HashTable.Resize` do not model 32-bit `int` overflow of `size` or `capacity`, because the model's integers are unbounded.
- HashTables.HashTable.Put: Java returns `null` both for a new key and for a key whose old value was `null`. The model returns `None` only for a new key.
- HashTables.HashTable.Put does not model node identity. A bucket's chain is a sequence of values, so no other reference can observe a node. Overwriting a node's `value` in place is overwriting that element of the sequence.
- HashTables.HashTable.Resize does not state the order of the nodes within a new bucket. It states only what the buckets store.
- HashTables.HashTable.Resize, `Refill` and `Drain` require what `put` guarantees when it calls `resize`. This is at most one entry past the threshold, which rules out a nested resize.
- The class documentation says the table doubles when the number of elements equals the array length. The code grows it by 1.8 when `size` passes 80% of the capacity, and the model follows the code.
- Keys are a type without heap references (`K(!new)`), which the invariant needs in order to quantify over keys. Reference keys are represented by their identity.
- `hashCode` is an arbitrary function. Its consistency with key equality holds automatically, because keys are compared by identity.
- `DemoApp`'s `Node` class is not among the Java files; the model declares it assuming it has the fields `element` and `next`, and a constructor that sets `element` and leaves `next` `null`.
- ReversedLinkedList.PrintReversedRecursively does not model a `null` head or a cyclic `next` chain. On a `null` head Java throws NullPointerException at `head.next`, and on a cycle it recurses until StackOverflowError. The non-null type `Node<T>` and the precondition `IsChain` exclude both.
- ReversedLinkedList.PrintReversedUsingStack does not model a `null` head or a cyclic `next` chain. On a `null` head Java throws NullPointerException at `head.element`, and on a cycle it pushes until memory runs out. The non-null type `Node<T>` and the precondition `IsChain` exclude both.
- `printReversedRecursively`'s `while (head.next != null)` always returns at the end of its first iteration. It is modelled as the `else` branch of the preceding `if`.
- `RandomFieldComparator` is not part of this model.
